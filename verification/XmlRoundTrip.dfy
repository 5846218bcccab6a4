/** Printing and parsing back: which tree comes out, and when it is the tree that went in. */
module XmlRoundTrip {
  import opened Wrappers
  import opened XmlText
  import opened XmlTree

  // ---- the trees that print as well-formed text ----

  predicate All(p: char -> bool, s: string) { forall i | 0 <= i < |s| :: p(s[i]) }

  predicate AttrPrintable(a: Attr) {
    a.name != [] && All(IsAttrNameChar, a.name) && NulFree(a.value)
  }

  predicate NamePrintable(name: string) {
    name != [] && All(IsNameChar, name) && name[0] != '!'
  }

  /** `value` does not contain the end of a CDATA section. */
  predicate Sealed(value: string) {
    forall i | 0 <= i < |value| :: !("]]>" <= value[i..])
  }

  predicate Printable(n: Node)
    decreases n, 1
  {
    match n
    case Data(value) => NulFree(value)
    case CData(value) => NulFree(value) && Sealed(value)
    case Element(name, attrs, value, children) =>
      && NamePrintable(name) && NulFree(value) && AllPrintable(children)
      && (forall i | 0 <= i < |attrs| :: AttrPrintable(attrs[i]))
  }

  predicate AllPrintable(nodes: seq<Node>)
    decreases nodes, 0
  {
    nodes != [] ==> Printable(nodes[0]) && AllPrintable(nodes[1..])
  }

  // ---- what survives the trip ----

  predicate Blank(s: string) { All(IsSpace, s) }

  /** Adjacent data merges, blank data vanishes, and the first data becomes the value. */
  function Normal(n: Node): Node
    decreases n, 1
  {
    match n
    case Data(_) => n
    case CData(_) => n
    case Element(name, attrs, value, children) =>
      var kids := NormalKids(children, if children == [] then value else "");
      Element(name, attrs, ElementValue(kids, ""), kids)
  }

  function NormalKids(children: seq<Node>, pending: string): seq<Node>
    decreases children, 0
  {
    if children == [] then Flush(pending)
    else if children[0].Data? then NormalKids(children[1..], pending + children[0].value)
    else Flush(pending) + [Normal(children[0])] + NormalKids(children[1..], "")
  }

  function Flush(pending: string): seq<Node> {
    if Blank(pending) then [] else [Data(pending)]
  }

  // ---- scanning printed text ----

  lemma {:induction false} SpanStops(p: char -> bool, a: string, rest: string)
    requires All(p, a) && (rest == [] || !p(rest[0]))
    ensures SpanLen(p, a + rest) == |a|
    decreases |a|
  {
    if a == [] {
      assert a + rest == rest;
    } else {
      assert (a + rest)[1..] == a[1..] + rest;
      SpanStops(p, a[1..], rest);
    }
  }

  lemma SkipsBlank(a: string, rest: string)
    requires Blank(a) && (rest == [] || !IsSpace(rest[0]))
    ensures SkipSpace(a + rest) == rest
  {
    SpanStops(IsSpace, a, rest);
  }

  lemma NothingToSkip(rest: string)
    requires rest == [] || !IsSpace(rest[0])
    ensures SkipSpace(rest) == rest
  {
    assert "" + rest == rest;
    SkipsBlank("", rest);
  }

  // ---- attributes ----

  lemma PrintedAttrShape(a: Attr, more: string) returns (quote: char, noexpand: char)
    ensures quote == '"' || quote == '\''
    ensures Quoting(AtQuote(quote), noexpand)
    ensures PrintAttr(a) + more == " " + (a.name + ("=" + ([quote] + (Escape(a.value, noexpand) + ([quote] + more)))))
  {
    if '"' in a.value {
      quote, noexpand := '\'', '"';
    } else {
      quote, noexpand := '"', '\'';
    }
    var e := Escape(a.value, noexpand);
    assert PrintAttr(a) == " " + a.name + ("=" + [quote]) + e + [quote];
    hide Escape, PrintAttr;
    Regrouped(a.name, quote, e, more);
  }

  lemma Regrouped(name: string, quote: char, e: string, more: string)
    ensures " " + name + ("=" + [quote]) + e + [quote] + more
            == " " + (name + ("=" + ([quote] + (e + ([quote] + more)))))
  {
    assert "=" + [quote] + (e + ([quote] + more)) == "=" + ([quote] + (e + ([quote] + more)));
  }

  lemma ValueParses(quote: char, noexpand: char, value: string, more: string)
    requires NulFree(value) && Quoting(AtQuote(quote), noexpand)
    ensures Expand(AtQuote(quote), Escape(value, noexpand) + ([quote] + more)) == Done(value, [quote] + more)
  {
    ExpandUndoesEscape(AtQuote(quote), value, noexpand, [quote] + more);
    assert value + "" == value;
  }

  lemma NoAttrs(rest: string)
    requires rest != [] && (rest[0] == '>' || rest[0] == '/')
    ensures ParseAttrs(SkipSpace(rest)) == Done([], rest)
  {
    NothingToSkip(rest);
  }

  lemma AttrsCons(s: string, a: Attr, more: string, attrs: seq<Attr>, rest: string)
    requires IsAttrNameChar(Peek(s, 0)) && ParseAttr(s) == Done(a, more)
    requires ParseAttrs(SkipSpace(more)) == Done(attrs, rest)
    ensures ParseAttrs(s) == Done([a] + attrs, rest)
  {
    hide ParseAttr, SkipSpace;
  }

  lemma {:induction false} AttrsParse(attrs: seq<Attr>, rest: string)
    requires forall i | 0 <= i < |attrs| :: AttrPrintable(attrs[i])
    requires rest != [] && (rest[0] == '>' || rest[0] == '/')
    ensures ParseAttrs(SkipSpace(PrintAttrs(attrs) + rest)) == Done(attrs, rest)
    decreases |attrs|
  {
    hide PrintAttr, AttrPrintable, ParseAttrs, ParseAttr, SkipSpace;
    if attrs == [] {
      assert PrintAttrs(attrs) + rest == rest;
      NoAttrs(rest);
    } else {
      var a, more := attrs[0], PrintAttrs(attrs[1..]) + rest;
      assert PrintAttrs(attrs) + rest == PrintAttr(a) + more;
      AttrsParse(attrs[1..], rest);
      OneAttrParses(a, more);
      AttrsCons(SkipSpace(PrintAttr(a) + more), a, more, attrs[1..], rest);
      assert attrs == [a] + attrs[1..];
    }
  }

  lemma OneAttrParses(a: Attr, more: string)
    requires AttrPrintable(a)
    ensures var s := SkipSpace(PrintAttr(a) + more); IsAttrNameChar(Peek(s, 0)) && ParseAttr(s) == Done(a, more)
  {
    hide Expand, Escape, SkipSpace, SpanLen, PrintAttr;
    var quote, noexpand := PrintedAttrShape(a, more);
    var tail := [quote] + more;
    var body := Escape(a.value, noexpand) + tail;
    var s1 := "=" + ([quote] + body);
    var s := a.name + s1;
    assert IsAttrNameChar(a.name[0]);
    SkipsBlank(" ", s);
    SpanStops(IsAttrNameChar, a.name, s1);
    assert s[|a.name|..] == s1 && s[..|a.name|] == a.name;
    NothingToSkip(s1);
    assert s1[1..] == [quote] + body;
    NothingToSkip([quote] + body);
    assert ([quote] + body)[1..] == body;
    ValueParses(quote, noexpand, a.value, more);
    assert tail[1..] == more;
  }

  // ---- character data ----

  lemma {:induction false} EscapeConcat(a: string, b: string, noexpand: char)
    ensures Escape(a + b, noexpand) == Escape(a, noexpand) + Escape(b, noexpand)
  {
    if a == [] {
      assert a + b == b;
    } else {
      assert (a + b)[1..] == a[1..] + b;
      EscapeConcat(a[1..], b, noexpand);
    }
  }

  lemma {:induction false} BlankUnescaped(p: string)
    requires Blank(p)
    ensures Escape(p, NUL) == p
  {
    if p != [] {
      assert IsSpace(p[0]);
      assert Blank(p[1..]);
      BlankUnescaped(p[1..]);
      assert p == [p[0]] + p[1..];
    }
  }

  /** A character that begins character data: neither blank nor the end nor a tag. */
  predicate BeginsData(c: char) { !IsSpace(c) && c != NUL && c != '<' }

  lemma SkipOne(c: char, rest: string)
    requires IsSpace(c)
    ensures SkipSpace([c] + rest) == SkipSpace(rest)
  {
    assert ([c] + rest)[1..] == rest;
    var n := SpanLen(IsSpace, rest);
    assert ([c] + rest)[1 + n..] == rest[n..];
  }

  lemma {:induction false} DataBegins(p: string, rest: string)
    requires !Blank(p) && NulFree(p)
    ensures BeginsData(Peek(SkipSpace(Escape(p, NUL) + rest), 0))
  {
    hide SkipSpace, BeginsData;
    var c, tail := p[0], Escape(p[1..], NUL) + rest;
    assert Escape(p, NUL) + rest == EscapeChar(c, NUL) + tail;
    if IsSpace(c) {
      RestNotBlank(p);
      DataBegins(p[1..], rest);
      SkipOne(c, tail);
    } else {
      assert c in p;
      BeginsHere(c, tail);
    }
  }

  lemma RestNotBlank(p: string)
    requires !Blank(p) && IsSpace(p[0]) && NulFree(p)
    ensures !Blank(p[1..]) && NulFree(p[1..])
  {
    var i :| 0 <= i < |p| && !IsSpace(p[i]);
    assert p[1..][i - 1] == p[i];
  }

  lemma BeginsHere(c: char, tail: string)
    requires !IsSpace(c) && c != NUL
    ensures BeginsData(Peek(SkipSpace(EscapeChar(c, NUL) + tail), 0))
  {
    hide SkipSpace;
    var e := EscapeChar(c, NUL);
    assert (e + tail)[0] == e[0];
    NothingToSkip(e + tail);
  }

  lemma DataThenTag(pending: string, tag: string)
    requires NulFree(pending) && tag != [] && tag[0] == '<'
    ensures ParseContents(Escape(pending, NUL) + tag) == Led(Flush(pending), ParseTag(tag))
  {
    hide Escape, Expand, ParseTag, SkipSpace;
    var s := Escape(pending, NUL) + tag;
    if Blank(pending) {
      BlankUnescaped(pending);
      SkipsBlank(pending, tag);
      assert ParseContents(s) == ParseTag(tag);
      assert ParseTag(tag).Done? ==> [] + ParseTag(tag).value == ParseTag(tag).value;
    } else {
      DataBegins(pending, tag);
      ExpandUndoesEscape(AtTag, pending, NUL, tag);
      StopsAtTag(tag);
      assert pending + "" == pending;
    }
  }

  lemma StopsAtTag(tag: string)
    requires tag != [] && tag[0] == '<'
    ensures Expand(AtTag, tag) == Done("", tag)
  {}

  // ---- tags ----

  lemma ClosingTag(name: string, rest: string)
    requires NamePrintable(name)
    ensures ParseTag("</" + name + ">" + rest) == Done([], rest)
  {
    var s, end := "</" + name + ">" + rest, ">" + rest;
    assert s[2..] == name + end;
    SpanStops(IsNameChar, name, end);
    assert (name + end)[|name|..] == end;
    NothingToSkip(end);
    assert end[1..] == rest;
  }

  lemma {:induction false} CDataEnds(value: string, rest: string)
    requires NulFree(value) && Sealed(value)
    ensures After(value + "]]>" + rest, "]]>") == Done(value, rest)
  {
    var s := value + "]]>" + rest;
    if value == [] {
      assert s == "]]>" + rest && s[3..] == rest;
    } else {
      assert s[1..] == value[1..] + "]]>" + rest;
      assert !("]]>" <= s) by { NotYetSealed(value, rest); }
      assert value[0] in value;
      SealedTail(value);
      CDataEnds(value[1..], rest);
      assert value == [value[0]] + value[1..];
    }
  }

  lemma NotYetSealed(value: string, rest: string)
    requires value != [] && Sealed(value)
    ensures !("]]>" <= value + "]]>" + rest)
  {
    var s := value + "]]>" + rest;
    assert value[0..] == value;
    if |value| >= 3 {
      assert !("]]>" <= value[0..]);
      assert s[..3] == value[..3];
      assert s[0] == value[0] && s[1] == value[1] && s[2] == value[2];
    } else {
      assert s[2] == ']';
    }
  }

  lemma SealedTail(value: string)
    requires value != [] && Sealed(value) && NulFree(value)
    ensures Sealed(value[1..]) && NulFree(value[1..])
  {
    forall i | 0 <= i < |value[1..]| ensures !("]]>" <= value[1..][i..]) {
      assert value[1..][i..] == value[i + 1..];
    }
  }

  lemma CDataParses(value: string, rest: string)
    requires NulFree(value) && Sealed(value)
    ensures ParseNode(Print(CData(value))[1..] + rest) == Done(Some(CData(value)), rest)
  {
    var s := Print(CData(value))[1..] + rest;
    var body := value + "]]>" + rest;
    assert s == "![CDATA[" + body;
    assert "![CDATA[" <= s && s[8..] == body;
    assert s[0] == '!' && s[1] == '[';
    CDataEnds(value, rest);
  }

  // ---- whole trees ----

  lemma ElementHead(name: string, attrs: seq<Attr>, tail: string)
    requires NamePrintable(name) && (forall i | 0 <= i < |attrs| :: AttrPrintable(attrs[i]))
    requires tail != [] && (tail[0] == '>' || tail[0] == '/')
    ensures var s := name + (PrintAttrs(attrs) + tail);
            SpanLen(IsNameChar, s) == |name| && s[..|name|] == name
            && ParseAttrs(SkipSpace(s[|name|..])) == Done(attrs, tail)
  {
    hide ParseAttrs, SkipSpace, PrintAttr;
    var after := PrintAttrs(attrs) + tail;
    assert !IsNameChar(after[0]) by { AttrsBegin(attrs, tail); }
    SpanStops(IsNameChar, name, after);
    assert (name + after)[|name|..] == after;
    AttrsParse(attrs, tail);
  }

  lemma AttrsBegin(attrs: seq<Attr>, tail: string)
    requires tail != [] && (tail[0] == '>' || tail[0] == '/')
    ensures (PrintAttrs(attrs) + tail)[0] in {' ', '>', '/'}
  {
    if attrs != [] { assert PrintAttr(attrs[0])[0] == ' '; }
  }

  lemma EmptyElementParses(name: string, attrs: seq<Attr>, rest: string)
    requires NamePrintable(name) && (forall i | 0 <= i < |attrs| :: AttrPrintable(attrs[i]))
    ensures ParseElement(name + (PrintAttrs(attrs) + ("/>" + rest))) == Done(Element(name, attrs, "", []), rest)
  {
    hide ParseAttrs, SkipSpace, PrintAttrs, SpanLen;
    var tail := "/>" + rest;
    ElementHead(name, attrs, tail);
    assert tail[2..] == rest;
  }

  lemma FullElementParses(name: string, attrs: seq<Attr>, body: string, kids: seq<Node>, rest: string)
    requires NamePrintable(name) && (forall i | 0 <= i < |attrs| :: AttrPrintable(attrs[i]))
    requires ParseContents(body) == Done(kids, rest)
    ensures ParseElement(name + (PrintAttrs(attrs) + (">" + body)))
            == Done(Element(name, attrs, ElementValue(kids, ""), kids), rest)
  {
    hide ParseAttrs, SkipSpace, PrintAttrs, SpanLen, ParseContents;
    var tail := ">" + body;
    ElementHead(name, attrs, tail);
    assert tail[1..] == body;
  }

  lemma ElementIsNode(s: string, n: Node, rest: string)
    requires ParseElement(s) == Done(n, rest) && s != [] && s[0] != '?' && s[0] != '!'
    ensures ParseNode(s) == Done(Some(n), rest)
  {
    hide ParseElement;
  }

  /** A printed element or CDATA section, and whatever follows it, parses to the normal form
      of the node and what follows it. */
  lemma {:induction false} NodeParses(n: Node, rest: string)
    requires Printable(n) && !n.Data?
    ensures Print(n) != [] && Print(n)[0] == '<'
    ensures ParseNode(Print(n)[1..] + rest) == Done(Some(Normal(n)), rest)
    ensures Peek(Print(n)[1..] + rest, 0) != '/'
    decreases n, 1
  {
    hide ParseNode, ParseElement, ParseContents, PrintAttrs, Escape;
    if n.CData? {
      CDataParses(n.value, rest);
    } else {
      var s := Print(n)[1..] + rest;
      if n.value == [] && n.children == [] {
        assert s == n.name + (PrintAttrs(n.attrs) + ("/>" + rest));
        EmptyElementParses(n.name, n.attrs, rest);
        assert NormalKids([], "") == [];
      } else {
        var pending := if n.children == [] then n.value else "";
        var body := Escape(pending, NUL) + PrintAll(n.children) + ("</" + n.name + ">" + rest);
        KidsParse(n.children, pending, n.name, rest);
        assert s == n.name + (PrintAttrs(n.attrs) + (">" + body)) by { BodyShape(n, rest); }
        FullElementParses(n.name, n.attrs, body, NormalKids(n.children, pending), rest);
      }
      ElementIsNode(s, Normal(n), rest);
    }
  }

  lemma BodyShape(n: Node, rest: string)
    requires n.Element? && !(n.value == [] && n.children == [])
    ensures var pending := if n.children == [] then n.value else "";
            var body := Escape(pending, NUL) + PrintAll(n.children) + ("</" + n.name + ">" + rest);
            Print(n)[1..] + rest == n.name + (PrintAttrs(n.attrs) + (">" + body))
  {
    var inner := if n.children == [] then Escape(n.value, NUL) else PrintAll(n.children);
    var pending := if n.children == [] then n.value else "";
    assert Escape("", NUL) == "" && PrintAll([]) == "";
    assert Escape(pending, NUL) + PrintAll(n.children) == inner;
    assert Print(n) == "<" + n.name + PrintAttrs(n.attrs) + (">" + inner + "</" + n.name + ">");
    hide PrintAttrs, Escape, PrintAll, Print;
    Reshape(n.name, PrintAttrs(n.attrs), inner, rest);
  }

  lemma Reshape(name: string, attrs: string, inner: string, rest: string)
    ensures ("<" + name + attrs + (">" + inner + "</" + name + ">"))[1..] + rest
         == name + (attrs + (">" + (inner + ("</" + name + ">" + rest))))
  {
    var tail := ">" + inner + "</" + name + ">";
    assert ("<" + name + attrs + tail)[1..] == name + attrs + tail;
    assert tail + rest == ">" + (inner + ("</" + name + ">" + rest));
    assert name + attrs + tail + rest == name + (attrs + (tail + rest));
  }

  lemma {:induction false} KidsParse(kids: seq<Node>, pending: string, name: string, rest: string)
    requires AllPrintable(kids) && NulFree(pending) && NamePrintable(name)
    ensures ParseContents(Escape(pending, NUL) + PrintAll(kids) + ("</" + name + ">" + rest))
         == Done(NormalKids(kids, pending), rest)
    decreases kids, 0
  {
    hide ParseNode, ParseContents, ParseTag, Escape, NamePrintable, Printable, Normal, Print, PrintAll;
    var close := "</" + name + ">" + rest;
    if kids == [] {
      NoKids(pending, close);
      DataThenTag(pending, close);
      ClosingTag(name, rest);
      assert Flush(pending) + [] == Flush(pending);
    } else if kids[0].Data? {
      DataPrints(kids[0]);
      KidsParse(kids[1..], pending + kids[0].value, name, rest);
      DataKid(kids, pending, close);
    } else {
      var more := Escape("", NUL) + PrintAll(kids[1..]) + close;
      NodeParses(kids[0], more);
      KidsParse(kids[1..], "", name, rest);
      ChildKid(kids, pending, close, more);
      DataThenTag(pending, Print(kids[0]) + more);
      ChildTag(Print(kids[0]) + more, Normal(kids[0]), more, NormalKids(kids[1..], ""), rest);
      assert Flush(pending) + ([Normal(kids[0])] + NormalKids(kids[1..], "")) == NormalKids(kids, pending);
    }
  }

  lemma NoKids(pending: string, close: string)
    ensures Escape(pending, NUL) + PrintAll([]) + close == Escape(pending, NUL) + close
  {
    hide Escape;
  }

  lemma DataKid(kids: seq<Node>, pending: string, close: string)
    requires kids != [] && kids[0].Data?
    ensures Escape(pending, NUL) + PrintAll(kids) + close
         == Escape(pending + kids[0].value, NUL) + PrintAll(kids[1..]) + close
  {
    hide Escape;
    EscapeConcat(pending, kids[0].value, NUL);
  }

  lemma ChildKid(kids: seq<Node>, pending: string, close: string, more: string)
    requires kids != [] && Print(kids[0]) != [] && more == Escape("", NUL) + PrintAll(kids[1..]) + close
    ensures Escape(pending, NUL) + PrintAll(kids) + close == Escape(pending, NUL) + (Print(kids[0]) + more)
    ensures (Print(kids[0]) + more)[1..] == Print(kids[0])[1..] + more
  {
    assert Escape("", NUL) == "";
    assert PrintAll(kids) == Print(kids[0]) + PrintAll(kids[1..]);
    hide Escape, Print, PrintAll;
    Regroup(Escape(pending, NUL), Print(kids[0]), PrintAll(kids[1..]), close);
    DropFront(Print(kids[0]), more);
  }

  lemma Regroup(e: string, p: string, q: string, c: string)
    ensures e + (p + q) + c == e + (p + ("" + q + c))
  {}

  lemma DropFront(p: string, m: string)
    requires p != []
    ensures (p + m)[1..] == p[1..] + m
  {}

  lemma DataPrints(n: Node)
    requires n.Data?
    ensures Print(n) == Escape(n.value, NUL)
    ensures Printable(n) <==> NulFree(n.value)
  {}

  lemma ChildTag(tag: string, child: Node, more: string, kids: seq<Node>, rest: string)
    requires tag != [] && tag[0] == '<' && Peek(tag[1..], 0) != '/'
    requires ParseNode(tag[1..]) == Done(Some(child), more)
    requires ParseContents(more) == Done(kids, rest)
    ensures ParseTag(tag) == Done([child] + kids, rest)
  {
    hide ParseNode, ParseContents;
  }
}
