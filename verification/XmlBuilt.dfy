/** What the parser of XmlTree reads and builds, whatever the text: it never reads past a zero,
    and the names and CDATA sections it builds are ones that can be printed. */
module XmlBuilt {
  import opened XmlText
  import opened XmlTree
  import opened XmlRoundTrip

  // ---- reading ----

  /** `rest` is what is left of `s` after reading some text without a zero. */
  predicate Read(s: string, rest: string) {
    |rest| <= |s| && s[|s| - |rest|..] == rest && NulFree(s[..|s| - |rest|])
  }

  lemma ReadThen(s: string, t: string, u: string)
    requires Read(s, t) && Read(t, u)
    ensures Read(s, u)
  {
    var a, b := |s| - |t|, |t| - |u|;
    assert s[..a + b] == s[..a] + t[..b];
    assert s[a + b..] == t[b..];
  }

  lemma ReadSome(s: string, k: nat)
    requires k <= |s| && NulFree(s[..k])
    ensures Read(s, s[k..])
  {}

  lemma SpanReads(p: char -> bool, s: string)
    requires !p(NUL)
    ensures Read(s, s[SpanLen(p, s)..]) && All(p, s[..SpanLen(p, s)])
  {
    hide SpanLen;
    SpanAll(p, s);
    ReadSome(s, SpanLen(p, s));
  }

  lemma SkipReads(s: string)
    ensures Read(s, SkipSpace(s))
  {
    SpanReads(IsSpace, s);
  }

  lemma OneRead(s: string)
    requires Peek(s, 0) != NUL
    ensures s != [] && Read(s, s[1..])
  {
    assert s[..1] == [s[0]];
    ReadSome(s, 1);
  }

  lemma {:induction false} DigitsRead(s: string)
    ensures NulFree(s[..DigitCount(s)])
  {
    var n := DigitCount(s);
    if n > 0 {
      DigitsRead(s[1..]);
      assert s[..n] == [s[0]] + s[1..][..n - 1];
    }
  }

  lemma NumericReads(s: string, at: nat, base: nat)
    requires at <= |s| && NulFree(s[..at]) && Numeric(s, at, base).Known?
    ensures var n := Numeric(s, at, base).len; n <= |s| && NulFree(s[..n])
  {
    var d := DigitCount(s[at..]);
    DigitsRead(s[at..]);
    hide DigitCount;
    assert s[at + d] == ';';
    assert s[..at + d + 1] == s[..at] + s[at..][..d] + [s[at + d]];
  }

  lemma NamedReads(s: string)
    requires s != [] && s[0] == '&' && RefAt(s).Known? && Peek(s, 1) != '#'
    ensures RefAt(s).len <= |s| && forall i | 0 <= i < RefAt(s).len :: s[i] != NUL
  {}

  lemma ReferenceReads(s: string)
    requires s != [] && s[0] == '&' && RefAt(s).Known?
    ensures RefAt(s).len <= |s| && Read(s, s[RefAt(s).len..])
  {
    hide Numeric, Read;
    if Peek(s, 1) != '#' {
      NamedReads(s);
    } else if Peek(s, 2) == 'x' {
      assert s[..3] == ['&', '#', 'x'];
      NumericReads(s, 3, 16);
    } else {
      assert s[..2] == ['&', '#'];
      NumericReads(s, 2, 10);
    }
    ReadSome(s, RefAt(s).len);
  }

  lemma {:induction false} ExpandReads(stop: Stop, s: string)
    requires Expand(stop, s).Done?
    ensures Read(s, Expand(stop, s).rest)
    decreases |s|
  {
    hide RefAt, Read;
    if !stop.Continues(Peek(s, 0)) {
      NothingRead(s);
    } else if s[0] == '&' && !RefAt(s).NoRef? {
      RefLength(s);
      ReferenceReads(s);
      ExpandReads(stop, s[RefAt(s).len..]);
      ReadThen(s, s[RefAt(s).len..], Expand(stop, s).rest);
    } else {
      OneRead(s);
      ExpandReads(stop, s[1..]);
      ReadThen(s, s[1..], Expand(stop, s).rest);
    }
  }

  lemma NothingRead(s: string)
    ensures Read(s, s)
  {
    assert s[..0] == [] && s[0..] == s;
  }

  lemma PatternRead(s: string, pattern: string)
    requires pattern <= s && NulFree(pattern)
    ensures Read(s, s[|pattern|..])
  {
    assert s[..|pattern|] == pattern;
    ReadSome(s, |pattern|);
  }

  lemma {:induction false} AfterReads(s: string, pattern: string)
    requires pattern != [] && NulFree(pattern) && After(s, pattern).Done?
    ensures Read(s, After(s, pattern).rest)
    decreases |s|
  {
    hide Read;
    if pattern <= s {
      PatternRead(s, pattern);
    } else {
      OneRead(s);
      AfterReads(s[1..], pattern);
      ReadThen(s, s[1..], After(s, pattern).rest);
    }
  }

  lemma {:induction false} DoctypeReads(s: string, depth: nat)
    requires AfterDoctype(s, depth).Done?
    ensures Read(s, AfterDoctype(s, depth).rest)
    decreases |s|
  {
    hide Read;
    OneRead(s);
    if !(depth == 0 && s[0] == '>') {
      var depth' := if s[0] == '[' then depth + 1 else if s[0] == ']' && depth > 0 then depth - 1 else depth;
      DoctypeReads(s[1..], depth');
      ReadThen(s, s[1..], AfterDoctype(s, depth).rest);
    }
  }

  // ---- building ----

  predicate AttrBuilt(a: Attr) { a.name != [] && All(IsAttrNameChar, a.name) }

  /** Names and CDATA sections that can be printed, and the first data as an element's value. */
  predicate Built(n: Node)
    decreases n, 1
  {
    match n
    case Data(_) => true
    case CData(value) => Sealed(value)
    case Element(name, attrs, value, children) =>
      && NamePrintable(name) && value == ElementValue(children, "") && AllBuilt(children)
      && (forall i | 0 <= i < |attrs| :: AttrBuilt(attrs[i]))
  }

  predicate AllBuilt(nodes: seq<Node>)
    decreases nodes, 0
  {
    nodes != [] ==> Built(nodes[0]) && AllBuilt(nodes[1..])
  }

  lemma {:induction false} AfterSealed(s: string)
    requires After(s, "]]>").Done?
    ensures Sealed(After(s, "]]>").value) && After(s, "]]>").value <= s
    decreases |s|
  {
    if !("]]>" <= s) {
      AfterSealed(s[1..]);
      var v, w := After(s, "]]>").value, After(s[1..], "]]>").value;
      assert v == [s[0]] + w && v[1..] == w;
      forall i | 0 <= i < |v| ensures !("]]>" <= v[i..]) {
        if i == 0 {
          assert v[0..] == v && v <= s;
        } else {
          assert v[i..] == w[i - 1..];
        }
      }
    }
  }

  lemma AttrHeadReads(s: string)
    requires IsAttrNameChar(Peek(s, 0)) && AttrHead(s).Done?
    ensures Read(s, AttrHead(s).rest) && AttrHead(s).value.0 != [] && All(IsAttrNameChar, AttrHead(s).value.0)
  {
    var n := SpanLen(IsAttrNameChar, s);
    var s1 := SkipSpace(s[n..]);
    var s2 := SkipSpace(s1[1..]);
    hide Read, SkipSpace;
    SpanReads(IsAttrNameChar, s);
    SkipReads(s[n..]);
    OneRead(s1);
    SkipReads(s1[1..]);
    OneRead(s2);
    ReadThen(s, s[n..], s1);
    ReadThen(s, s1, s1[1..]);
    ReadThen(s, s1[1..], s2);
    ReadThen(s, s2, s2[1..]);
  }

  lemma AttrReads(s: string)
    requires IsAttrNameChar(Peek(s, 0)) && ParseAttr(s).Done?
    ensures Read(s, ParseAttr(s).rest) && AttrBuilt(ParseAttr(s).value)
  {
    hide Read, AttrHead, Expand;
    var head := AttrHead(s);
    var v := Expand(AtQuote(head.value.1), head.rest);
    AttrHeadReads(s);
    ExpandReads(AtQuote(head.value.1), head.rest);
    QuoteNotNul(s);
    OneRead(v.rest);
    ReadThen(s, head.rest, v.rest);
    ReadThen(s, v.rest, v.rest[1..]);
  }

  lemma QuoteNotNul(s: string)
    requires IsAttrNameChar(Peek(s, 0)) && AttrHead(s).Done?
    ensures AttrHead(s).value.1 != NUL
  {
    hide SkipSpace, SpanLen;
  }

  lemma {:induction false} AttrsRead(s: string)
    requires ParseAttrs(s).Done?
    ensures Read(s, ParseAttrs(s).rest)
    ensures forall i | 0 <= i < |ParseAttrs(s).value| :: AttrBuilt(ParseAttrs(s).value[i])
    decreases |s|
  {
    hide Read, ParseAttr, SkipSpace, AttrBuilt;
    if !IsAttrNameChar(Peek(s, 0)) {
      NothingRead(s);
    } else {
      var a := ParseAttr(s);
      AttrReads(s);
      SkipReads(a.rest);
      AttrsRead(SkipSpace(a.rest));
      ReadThen(s, a.rest, SkipSpace(a.rest));
      ReadThen(s, SkipSpace(a.rest), ParseAttrs(s).rest);
    }
  }

  lemma NameReads(s: string)
    requires SpanLen(IsNameChar, s) > 0 && Peek(s, 0) != '!'
    ensures var n := SpanLen(IsNameChar, s); Read(s, s[n..]) && NamePrintable(s[..n])
  {
    SpanReads(IsNameChar, s);
  }

  lemma InstructionReads(s: string)
    requires ParseNode(s).Done? && Peek(s, 0) == '?'
    ensures Read(s, ParseNode(s).rest) && ParseNode(s).value.None?
  {
    hide Read, After;
    if IsXmlDeclaration(s[1..]) {
      DeclarationBegins(s);
      MarkThen(s, 5, "?>");
    } else {
      MarkThen(s, 1, "?>");
    }
  }

  lemma DeclarationBegins(s: string)
    requires s != [] && s[0] == '?' && IsXmlDeclaration(s[1..])
    ensures 5 <= |s| && forall i | 0 <= i < 5 :: s[i] != NUL
  {
    var t := s[1..];
    assert Peek(t, 0) != NUL && Peek(t, 1) != NUL && Peek(t, 2) != NUL && Peek(t, 3) != NUL;
    assert t[0] == s[1] && t[1] == s[2] && t[2] == s[3] && t[3] == s[4];
  }

  lemma CDataReads(s: string)
    requires ParseNode(s).Done? && "![CDATA[" <= s
    ensures Read(s, ParseNode(s).rest) && ParseNode(s).value.Some? && Built(ParseNode(s).value.value)
  {
    hide Read, After, Sealed;
    assert Peek(s, 0) == '!' && Peek(s, 1) == '[';
    PatternRead(s, "![CDATA[");
    AfterReads(s[8..], "]]>");
    ReadThen(s, s[8..], ParseNode(s).rest);
    AfterSealed(s[8..]);
  }

  lemma TypeReads(s: string)
    requires "!DOCTYPE" <= s && IsSpace(Peek(s, 8)) && AfterDoctype(s[9..], 0).Done?
    ensures Read(s, AfterDoctype(s[9..], 0).rest)
  {
    hide Read, AfterDoctype;
    PatternRead(s, "!DOCTYPE");
    OneRead(s[8..]);
    assert s[8..][1..] == s[9..];
    DoctypeReads(s[9..], 0);
    ReadThen(s, s[8..], s[9..]);
    ReadThen(s, s[9..], AfterDoctype(s[9..], 0).rest);
  }

  /** What is read over, or a CDATA section. */
  lemma MarkReads(s: string)
    requires ParseNode(s).Done? && (Peek(s, 0) == '?' || Peek(s, 0) == '!')
    ensures Read(s, ParseNode(s).rest) && (ParseNode(s).value.Some? ==> Built(ParseNode(s).value.value))
  {
    hide Read, After, AfterDoctype, Built;
    if Peek(s, 0) == '?' {
      InstructionReads(s);
    } else if Peek(s, 1) == '-' && Peek(s, 2) == '-' {
      MarkThen(s, 3, "-->");
    } else if "![CDATA[" <= s {
      CDataReads(s);
    } else if "!DOCTYPE" <= s && IsSpace(Peek(s, 8)) {
      TypeReads(s);
    } else {
      MarkThen(s, 1, ">");
    }
  }

  lemma MarkThen(s: string, k: nat, pattern: string)
    requires k <= |s| && (forall i | 0 <= i < k :: s[i] != NUL) && pattern != [] && NulFree(pattern)
    ensures After(s[k..], pattern).Done? ==> Read(s, After(s[k..], pattern).rest)
  {
    hide After;
    ReadSome(s, k);
    if After(s[k..], pattern).Done? {
      AfterReads(s[k..], pattern);
      ReadThen(s, s[k..], After(s[k..], pattern).rest);
    }
  }

  lemma {:induction false} NodeBuilt(s: string)
    requires ParseNode(s).Done?
    ensures Read(s, ParseNode(s).rest) && (ParseNode(s).value.Some? ==> Built(ParseNode(s).value.value))
    decreases |s|, 1
  {
    if Peek(s, 0) == '?' || Peek(s, 0) == '!' {
      MarkReads(s);
    } else {
      ElementBuilt(s);
    }
  }

  lemma {:induction false} ElementBuilt(s: string)
    requires ParseElement(s).Done? && Peek(s, 0) != '!'
    ensures Read(s, ParseElement(s).rest) && Built(ParseElement(s).value)
    decreases |s|, 0
  {
    hide Read, SpanLen, SkipSpace, ParseAttrs, ParseContents;
    var n := SpanLen(IsNameChar, s);
    var attrs := ParseAttrs(SkipSpace(s[n..]));
    NameReads(s);
    SkipReads(s[n..]);
    AttrsRead(SkipSpace(s[n..]));
    ReadThen(s, s[n..], SkipSpace(s[n..]));
    ReadThen(s, SkipSpace(s[n..]), attrs.rest);
    OneRead(attrs.rest);
    ReadThen(s, attrs.rest, attrs.rest[1..]);
    if Peek(attrs.rest, 0) == '>' {
      ContentsBuilt(attrs.rest[1..]);
      ReadThen(s, attrs.rest[1..], ParseElement(s).rest);
    } else {
      OneRead(attrs.rest[1..]);
      assert attrs.rest[1..][1..] == attrs.rest[2..];
      ReadThen(s, attrs.rest[1..], attrs.rest[2..]);
    }
  }

  lemma {:induction false} ContentsBuilt(s: string)
    requires ParseContents(s).Done?
    ensures Read(s, ParseContents(s).rest) && AllBuilt(ParseContents(s).value)
    decreases |s|, 2
  {
    hide Read, SkipSpace, Expand, ParseTag, Built;
    var t := SkipSpace(s);
    if Peek(t, 0) == '<' {
      SkipReads(s);
      TagBuilt(t);
      ReadThen(s, t, ParseContents(s).rest);
    } else {
      var d := Expand(AtTag, s);
      ExpandReads(AtTag, s);
      ExpandRest(AtTag, s);
      TagBuilt(d.rest);
      ReadThen(s, d.rest, ParseContents(s).rest);
      BuiltCons(Data(d.value), ParseTag(d.rest).value);
    }
  }

  lemma BuiltCons(n: Node, nodes: seq<Node>)
    requires (n.Data? || Built(n)) && AllBuilt(nodes)
    ensures AllBuilt([n] + nodes)
  {
    assert ([n] + nodes)[1..] == nodes;
  }

  lemma {:induction false} TagBuilt(s: string)
    requires Peek(s, 0) == '<' && ParseTag(s).Done?
    ensures Read(s, ParseTag(s).rest) && AllBuilt(ParseTag(s).value)
    decreases |s|, 1
  {
    hide Read, SkipSpace, SpanLen, ParseNode, ParseContents, Built;
    OneRead(s);
    if Peek(s, 1) == '/' {
      OneRead(s[1..]);
      assert s[1..][1..] == s[2..];
      var u := s[2..][SpanLen(IsNameChar, s[2..])..];
      SpanReads(IsNameChar, s[2..]);
      SkipReads(u);
      OneRead(SkipSpace(u));
      ReadThen(s, s[1..], s[2..]);
      ReadThen(s, s[2..], u);
      ReadThen(s, u, SkipSpace(u));
      ReadThen(s, SkipSpace(u), SkipSpace(u)[1..]);
    } else {
      var child := ParseNode(s[1..]);
      NodeBuilt(s[1..]);
      ContentsBuilt(child.rest);
      ReadThen(s, s[1..], child.rest);
      ReadThen(s, child.rest, ParseTag(s).rest);
      if child.value.Some? { BuiltCons(child.value.value, ParseContents(child.rest).value); }
    }
  }

  /** A document's nodes are elements and CDATA sections, and parsing ends at a zero. */
  lemma {:induction false} TopBuilt(s: string)
    requires ParseTop(s).Done?
    ensures Read(s, ParseTop(s).rest) && Peek(ParseTop(s).rest, 0) == NUL && AllBuilt(ParseTop(s).value)
    ensures forall i | 0 <= i < |ParseTop(s).value| :: !ParseTop(s).value[i].Data?
    decreases |s|
  {
    hide Read, SkipSpace, ParseNode, Built;
    var t := SkipSpace(s);
    SkipReads(s);
    if Peek(t, 0) == '<' {
      var child := ParseNode(t[1..]);
      OneRead(t);
      NodeBuilt(t[1..]);
      if child.value.Some? { NeverData(t[1..]); }
      TopBuilt(child.rest);
      ReadThen(s, t, t[1..]);
      ReadThen(s, t[1..], child.rest);
      ReadThen(s, child.rest, ParseTop(s).rest);
      if child.value.Some? { BuiltCons(child.value.value, ParseTop(child.rest).value); }
    }
  }

  lemma NeverData(s: string)
    requires ParseNode(s).Done? && ParseNode(s).value.Some?
    ensures !ParseNode(s).value.value.Data?
  {
    hide After, AfterDoctype, ParseAttrs, ParseContents, SkipSpace, SpanLen;
  }

  lemma DocumentBuilt(s: string)
    requires ParseDocument(s).Done?
    ensures Read(s, ParseDocument(s).rest) && Peek(ParseDocument(s).rest, 0) == NUL && AllBuilt(ParseDocument(s).value)
    ensures forall i | 0 <= i < |ParseDocument(s).value| :: !ParseDocument(s).value[i].Data?
  {
    hide ParseTop, Read, Built;
    if Peek(s, 0) as int == 0xEF && Peek(s, 1) as int == 0xBB && Peek(s, 2) as int == 0xBF {
      MarkRead(s);
      TopBuilt(s[3..]);
      ReadThen(s, s[3..], ParseDocument(s).rest);
    } else {
      TopBuilt(s);
    }
  }

  lemma MarkRead(s: string)
    requires Peek(s, 0) as int == 0xEF && Peek(s, 1) as int == 0xBB && Peek(s, 2) as int == 0xBF
    ensures 3 <= |s| && Read(s, s[3..])
  {
    ReadSome(s, 3);
  }

  // ---- what was built and prints without a zero is printable ----

  lemma {:induction false} EscapeShowsNul(text: string, noexpand: char)
    requires NulFree(Escape(text, noexpand))
    ensures NulFree(text)
  {
    if text != [] {
      var e := Escape(text[1..], noexpand);
      assert Escape(text, noexpand) == EscapeChar(text[0], noexpand) + e;
      assert forall i | 0 <= i < |e| :: e[i] == Escape(text, noexpand)[|EscapeChar(text[0], noexpand)| + i];
      EscapeShowsNul(text[1..], noexpand);
      assert EscapeChar(text[0], noexpand)[0] == Escape(text, noexpand)[0];
      assert text == [text[0]] + text[1..];
    }
  }

  lemma {:induction false} AttrsPrintable(attrs: seq<Attr>)
    requires NulFree(PrintAttrs(attrs)) && forall i | 0 <= i < |attrs| :: AttrBuilt(attrs[i])
    ensures forall i | 0 <= i < |attrs| :: AttrPrintable(attrs[i])
  {
    if attrs != [] {
      hide Escape, AttrBuilt;
      var a, more := attrs[0], PrintAttrs(attrs[1..]);
      PartsNulFree(PrintAttr(a), more);
      AttrsPrintable(attrs[1..]);
      AttrShowsNul(a);
    }
  }

  lemma AttrShowsNul(a: Attr)
    requires NulFree(PrintAttr(a)) && AttrBuilt(a)
    ensures AttrPrintable(a)
  {
    var noexpand := if '"' in a.value then '"' else '\'';
    var quote := if '"' in a.value then "'" else "\"";
    var e := Escape(a.value, noexpand);
    assert PrintAttr(a) == " " + a.name + ("=" + quote) + e + quote;
    PartsNulFree(" " + a.name + ("=" + quote) + e, quote);
    PartsNulFree(" " + a.name + ("=" + quote), e);
    EscapeShowsNul(a.value, noexpand);
  }

  lemma PartsNulFree(a: string, b: string)
    requires NulFree(a + b)
    ensures NulFree(a) && NulFree(b)
  {
    assert forall i | 0 <= i < |a| :: a[i] == (a + b)[i];
    assert forall i | 0 <= i < |b| :: b[i] == (a + b)[|a| + i];
  }

  lemma {:induction false} ValueNulFree(kids: seq<Node>, value: string)
    requires AllPrintable(kids) && NulFree(value)
    ensures NulFree(ElementValue(kids, value))
  {
    if kids != [] {
      ValueNulFree(kids[1..], if kids[0].Data? && Peek(value, 0) == NUL then kids[0].value else value);
    }
  }

  lemma {:induction false} BuiltPrintable(n: Node)
    requires Built(n) && NulFree(Print(n))
    ensures Printable(n)
    decreases n, 1
  {
    match n
    case Data(value) => EscapeShowsNul(value, NUL);
    case CData(value) =>
      PartsNulFree("<![CDATA[" + value, "]]>");
      PartsNulFree("<![CDATA[", value);
    case Element(name, attrs, value, children) =>
      ElementParts(n);
      hide PrintAttrs, Escape, PrintAll, AttrBuilt, AttrPrintable;
      AttrsPrintable(attrs);
      if children != [] {
        KidsPrintable(children);
      }
      ValueNulFree(children, "");
  }

  lemma ElementParts(n: Node)
    requires n.Element? && NulFree(Print(n))
    ensures NulFree(PrintAttrs(n.attrs)) && (n.children != [] ==> NulFree(PrintAll(n.children)))
  {
    var inner := if n.children == [] then Escape(n.value, NUL) else PrintAll(n.children);
    var tail := if n.value == [] && n.children == [] then "/>" else ">" + inner + "</" + n.name + ">";
    assert Print(n) == "<" + n.name + PrintAttrs(n.attrs) + tail;
    hide Print, PrintAll, PrintAttrs, Escape;
    PartsNulFree("<" + n.name + PrintAttrs(n.attrs), tail);
    PartsNulFree("<" + n.name, PrintAttrs(n.attrs));
    if n.children != [] { InsideNulFree(PrintAll(n.children), n.name); }
  }

  lemma InsideNulFree(kids: string, name: string)
    requires NulFree(">" + kids + "</" + name + ">")
    ensures NulFree(kids)
  {
    PartsNulFree(">" + kids + "</" + name, ">");
    PartsNulFree(">" + kids + "</", name);
    PartsNulFree(">" + kids, "</");
    PartsNulFree(">", kids);
  }

  lemma {:induction false} KidsPrintable(kids: seq<Node>)
    requires AllBuilt(kids) && NulFree(PrintAll(kids))
    ensures AllPrintable(kids)
    decreases kids, 0
  {
    if kids != [] {
      PartsNulFree(Print(kids[0]), PrintAll(kids[1..]));
      BuiltPrintable(kids[0]);
      KidsPrintable(kids[1..]);
    }
  }
}
