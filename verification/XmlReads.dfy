/** Every text of XmlGrammar is read, and read as what it means. */
module XmlReads {
  import opened Wrappers
  import opened XmlText
  import opened XmlTree
  import opened XmlDigits
  import opened XmlGrammar
  import R = XmlRoundTrip

  // ---- characters ----

  lemma SpaceExactly(s: string)
    ensures SpaceText(s) <==> R.All(IsSpace, s)
  {}

  lemma NameExactly(s: string)
    ensures NameText(s) <==> R.All(IsNameChar, s)
  {}

  lemma AttrNameExactly(s: string)
    ensures AttrNameText(s) <==> R.All(IsAttrNameChar, s)
  {}

  lemma GapSkipped(gap: string, rest: string)
    requires SpaceText(gap) && (rest == "" || !IsSpace(rest[0]))
    ensures SkipSpace(gap + rest) == rest
  {
    SpaceExactly(gap);
    R.SkipsBlank(gap, rest);
  }

  // ---- character data ----

  function End(stop: Stop): char { if stop.AtTag? then '<' else stop.quote }

  lemma NamedReference(name: string, tail: string)
    requires name in {"lt", "gt", "amp", "apos", "quot"}
    ensures RefAt("&" + name + ";" + tail) == Known([EntityChar(name)], |name| + 2)
  {
    var s := "&" + name + ";" + tail;
    assert s[0] == '&' && s[1] == name[0] && s[2] == name[1];
    assert s[|name| + 1] == ';';
    assert |name| > 2 ==> s[3] == name[2];
    assert |name| > 3 ==> s[4] == name[3];
  }

  lemma BareAmpersand(s: string)
    requires s != "" && s[0] == '&'
    ensures Bare(s[1..]) <==> RefAt(s).NoRef?
  {
    var t := s[1..];
    assert forall i | 0 <= i :: Peek(t, i) == Peek(s, i + 1);
    Begins(t, "lt;");
    Begins(t, "gt;");
    Begins(t, "amp;");
    Begins(t, "apos;");
    Begins(t, "quot;");
    Begins(t, "#");
    hide Numeric;
  }

  /** A prefix, character by character. */
  lemma Begins(t: string, word: string)
    requires NUL !in word
    ensures word <= t <==> forall i | 0 <= i < |word| :: Peek(t, i) == word[i]
  {
    if forall i | 0 <= i < |word| :: Peek(t, i) == word[i] {
      forall i | 0 <= i < |word| ensures i < |t| && t[i] == word[i] { assert word[i] in word; }
      assert |word| > 0 ==> Peek(t, |word| - 1) == word[|word| - 1];
    }
  }

  lemma ExpandAmpersand(stop: Stop, s: string)
    requires s != "" && s[0] == '&' && stop.Continues('&') && RefAt(s).NoRef?
    ensures Expand(stop, s) == Prepend([s[0]], Expand(stop, s[1..]))
  {
    hide RefAt;
  }

  lemma PlainRead(stop: Stop, c: char, after: string)
    requires stop.Continues('&') && ChunkOk(End(stop), Plain(c), after)
    ensures Expand(stop, [c] + after) == Prepend([c], Expand(stop, after))
  {
    hide Expand, RefAt, Bare;
    var s := [c] + after;
    assert s[1..] == after;
    if c == '&' {
      BareAmpersand(s);
      ExpandAmpersand(stop, s);
    } else {
      ExpandPlain(stop, s);
    }
  }

  lemma ReferenceRead(k: Chunk, stop: char, after: string)
    requires !k.Plain? && ChunkOk(stop, k, after)
    ensures RefAt(WriteChunk(k) + after) == Known(MeansChunk(k), |WriteChunk(k)|)
  {
    hide RefAt, Utf8, Value;
    match k
    case Named(name) => NamedReference(name, after);
    case Decimal(digits) => DecimalReference(digits, after);
    case Hex(digits) => HexReference(digits, after);
  }

  lemma ChunkRead(stop: Stop, k: Chunk, after: string)
    requires stop.Continues('&') && ChunkOk(End(stop), k, after)
    ensures Expand(stop, WriteChunk(k) + after) == Prepend(MeansChunk(k), Expand(stop, after))
  {
    hide Expand, RefAt, Utf8, Value;
    if k.Plain? {
      PlainRead(stop, k.c, after);
    } else {
      var w := WriteChunk(k);
      ReferenceRead(k, End(stop), after);
      assert (w + after)[0] == '&' && (w + after)[|w|..] == after;
      ExpandKnown(stop, w + after, MeansChunk(k), |w|);
    }
  }

  /** Character data up to its end. */
  lemma {:induction false} ChunksRead(stop: Stop, ks: seq<Chunk>, after: string)
    requires stop.Continues('&') && ChunksOk(End(stop), ks, after) && !stop.Continues(Peek(after, 0))
    ensures Expand(stop, WriteChunks(ks) + after) == Done(MeansChunks(ks), after)
  {
    hide ChunkOk, WriteChunk, MeansChunk;
    if ks == [] {
      assert WriteChunks(ks) + after == after;
    } else {
      var rest := WriteChunks(ks[1..]) + after;
      assert WriteChunks(ks) + after == WriteChunk(ks[0]) + rest;
      ChunksRead(stop, ks[1..], after);
      hide Expand;
      ChunkRead(stop, ks[0], rest);
    }
  }

  // ---- attributes ----

  lemma AttrText(a: AttrForm, after: string)
    ensures var tail := WriteChunks(a.value) + ([a.quote] + a.gap + after);
            WriteAttr(a) + after == a.name + (a.before + ("=" + (a.behind + ([a.quote] + tail))))
  {
    hide WriteChunks;
  }

  lemma HeadRead(a: AttrForm, rest: string)
    requires a.name != "" && AttrNameText(a.name) && SpaceText(a.before) && SpaceText(a.behind)
    requires a.quote == '\'' || a.quote == '"'
    ensures var s := a.name + (a.before + ("=" + (a.behind + ([a.quote] + rest))));
            IsAttrNameChar(Peek(s, 0)) && AttrHead(s) == Done((a.name, a.quote), rest)
  {
    hide SkipSpace, SpanLen;
    var s3 := [a.quote] + rest;
    var s2 := a.behind + s3;
    var s1 := a.before + ("=" + s2);
    var s := a.name + s1;
    AttrNameExactly(a.name);
    assert IsAttrNameChar(a.name[0]);
    assert !IsAttrNameChar(s1[0]) by { if a.before != "" { assert s1[0] == a.before[0]; } }
    R.SpanStops(IsAttrNameChar, a.name, s1);
    assert s[..|a.name|] == a.name && s[|a.name|..] == s1;
    GapSkipped(a.before, "=" + s2);
    assert ("=" + s2)[1..] == s2;
    GapSkipped(a.behind, s3);
    assert s3[1..] == rest;
  }

  lemma AttrRead(a: AttrForm, after: string)
    requires AttrOk(a, after)
    ensures var s := WriteAttr(a) + after;
            IsAttrNameChar(Peek(s, 0)) && ParseAttr(s) == Done(MeansAttr(a), a.gap + after)
  {
    hide AttrHead, Expand, WriteAttr, WriteChunks, MeansChunks, ChunksOk, SpaceText, AttrNameText;
    var tail := [a.quote] + a.gap + after;
    AttrText(a, after);
    HeadRead(a, WriteChunks(a.value) + tail);
    ChunksRead(AtQuote(a.quote), a.value, tail);
    assert tail[1..] == a.gap + after;
  }

  lemma {:induction false} AttrsRead(attrs: seq<AttrForm>, after: string)
    requires AttrsOk(attrs, after) && after != "" && (after[0] == '>' || after[0] == '/')
    ensures ParseAttrs(WriteAttrs(attrs) + after) == Done(MeansAttrs(attrs), after)
    decreases |attrs|
  {
    hide AttrOk, WriteAttr, MeansAttr, ParseAttrs, ParseAttr, SkipSpace;
    if attrs == [] {
      assert WriteAttrs(attrs) + after == after;
      NoMoreAttrs(after);
    } else {
      var a, rest := attrs[0], WriteAttrs(attrs[1..]) + after;
      assert WriteAttrs(attrs) + after == WriteAttr(a) + rest;
      AttrRead(a, rest);
      AttrsRead(attrs[1..], after);
      AttrGap(a, attrs[1..], after);
      R.AttrsCons(WriteAttr(a) + rest, MeansAttr(a), a.gap + rest, MeansAttrs(attrs[1..]), after);
    }
  }

  lemma NoMoreAttrs(after: string)
    requires after != "" && (after[0] == '>' || after[0] == '/')
    ensures ParseAttrs(after) == Done([], after)
  {}

  lemma AttrGap(a: AttrForm, more: seq<AttrForm>, after: string)
    requires AttrOk(a, WriteAttrs(more) + after) && AttrsOk(more, after)
    requires after != "" && (after[0] == '>' || after[0] == '/')
    ensures SkipSpace(a.gap + (WriteAttrs(more) + after)) == WriteAttrs(more) + after
  {
    hide SkipSpace, ChunksOk, AttrsOk, WriteAttrs;
    AttrsBegin(more, after);
    GapSkipped(a.gap, WriteAttrs(more) + after);
  }

  // ---- what is read over ----

  lemma {:induction false} MarkFound(text: string, mark: string, after: string)
    requires mark != "" && NulFree(text) && EndsFirst(text, mark)
    ensures After(text + (mark + after), mark) == Done(text, after)
    decreases |text|
  {
    var s := text + (mark + after);
    if text == "" {
      assert s == mark + after && s[|mark|..] == after;
    } else {
      assert !(mark <= (text + mark)[0..]);
      assert (text + mark)[0..] == text + mark;
      NotHere(text, mark, after);
      assert text[0] in text && s[1..] == text[1..] + (mark + after);
      EndsLater(text, mark, 1);
      MarkFound(text[1..], mark, after);
      assert s[0] == text[0] && [text[0]] + text[1..] == text;
    }
  }

  lemma NotHere(text: string, mark: string, after: string)
    requires !(mark <= text + mark)
    ensures !(mark <= text + (mark + after))
  {
    assert (text + (mark + after))[..|mark|] == (text + mark)[..|mark|];
  }

  lemma EndsLater(text: string, mark: string, k: nat)
    requires EndsFirst(text, mark) && NulFree(text) && k <= |text|
    ensures EndsFirst(text[k..], mark) && NulFree(text[k..])
  {
    forall i | 0 <= i < |text[k..]| ensures !(mark <= (text[k..] + mark)[i..]) {
      assert (text[k..] + mark)[i..] == (text + mark)[k + i..];
    }
  }

  lemma DoctypeStep(c: char, t: string, depth: nat)
    requires c != NUL && (depth == 0 ==> c != '>')
    ensures AfterDoctype([c] + t, depth) ==
              AfterDoctype(t, if c == '[' then depth + 1 else if c == ']' && depth > 0 then depth - 1 else depth)
  {
    var s := [c] + t;
    assert s[0] == c && s[1..] == t;
  }

  lemma {:induction false} PartRead(p: Part, depth: nat, rest: string)
    requires PartOk(p, depth > 0)
    ensures AfterDoctype(WritePart(p) + rest, depth) == AfterDoctype(rest, depth)
    decreases p, 1
  {
    hide AfterDoctype;
    match p
    case Loose(c) => DoctypeStep(c, rest, depth);
    case Brackets(parts) =>
      var inner := WriteParts(parts) + ("]" + rest);
      assert WritePart(p) + rest == "[" + inner;
      DoctypeStep('[', inner, depth);
      PartsRead(parts, depth + 1, "]" + rest);
      DoctypeStep(']', rest, depth + 1);
  }

  lemma {:induction false} PartsRead(parts: seq<Part>, depth: nat, rest: string)
    requires PartsOk(parts, depth > 0)
    ensures AfterDoctype(WriteParts(parts) + rest, depth) == AfterDoctype(rest, depth)
    decreases parts, 0
  {
    hide AfterDoctype;
    if parts == [] {
      assert WriteParts(parts) + rest == rest;
    } else {
      var more := WriteParts(parts[1..]) + rest;
      assert WriteParts(parts) + rest == WritePart(parts[0]) + more;
      PartRead(parts[0], depth, more);
      PartsRead(parts[1..], depth, rest);
    }
  }

  /** At most one node. */
  function Only(nodes: seq<Node>): Option<Node> { if nodes == [] then None else Some(nodes[0]) }

  lemma InstructionRead(text: string, after: string)
    requires NulFree(text) && EndsFirst(text, "?>")
    ensures ParseNode("?" + text + "?>" + after) == Done(None, after)
  {
    hide After, ParseElement, EndsFirst;
    var s, t := "?" + text + "?>" + after, text + ("?>" + after);
    assert s == "?" + t && s[0] == '?' && s[1..] == t;
    if IsXmlDeclaration(t) {
      DeclarationLong(text, after);
      EndsLater(text, "?>", 4);
      MarkFound(text[4..], "?>", after);
      assert s[5..] == text[4..] + ("?>" + after);
    } else {
      MarkFound(text, "?>", after);
    }
  }

  lemma DeclarationLong(text: string, after: string)
    requires IsXmlDeclaration(text + ("?>" + after))
    ensures |text| >= 4
  {
    var t := text + ("?>" + after);
    assert t[|text|] == '?';
  }

  lemma CommentRead(text: string, after: string)
    requires NulFree(text) && EndsFirst(text, "-->")
    ensures ParseNode("!--" + text + "-->" + after) == Done(None, after)
  {
    hide After, ParseElement, EndsFirst;
    var s, t := "!--" + text + "-->" + after, text + ("-->" + after);
    assert s == "!--" + t && s[0] == '!' && s[1] == '-' && s[2] == '-' && s[3..] == t;
    MarkFound(text, "-->", after);
  }

  lemma SectionRead(text: string, after: string)
    requires NulFree(text) && EndsFirst(text, "]]>")
    ensures ParseNode("![CDATA[" + text + "]]>" + after) == Done(Some(CData(text)), after)
  {
    hide After, ParseElement, EndsFirst;
    var s, t := "![CDATA[" + text + "]]>" + after, text + ("]]>" + after);
    assert s == "![CDATA[" + t && s[0] == '!' && s[1] == '[' && s[8..] == t && "![CDATA[" <= s;
    MarkFound(text, "]]>", after);
  }

  lemma DoctypeRead(space: char, parts: seq<Part>, after: string)
    requires space in " \t\n\r" && PartsOk(parts, false)
    ensures ParseNode("!DOCTYPE" + [space] + WriteParts(parts) + ">" + after) == Done(None, after)
  {
    hide ParseElement, WriteParts, PartsOk;
    var t := WriteParts(parts) + (">" + after);
    var s := "!DOCTYPE" + [space] + WriteParts(parts) + ">" + after;
    assert s == "!DOCTYPE" + ([space] + t);
    assert s[0] == '!' && s[1] == 'D' && s[8] == space && s[9..] == t && "!DOCTYPE" <= s;
    PartsRead(parts, 0, ">" + after);
    assert (">" + after)[1..] == after;
  }

  lemma OtherRead(text: string, after: string)
    requires MarkupOk(Other(text), after)
    ensures ParseNode("!" + text + ">" + after) == Done(None, after)
  {
    hide After, ParseElement, AfterDoctype;
    var s, t := "!" + text + ">" + after, text + (">" + after);
    assert s == "!" + t && s[0] == '!' && s[1..] == t && t[|text|] == '>';
    OtherPlain(text, after);
    MarkFound(text, ">", after);
  }

  lemma OtherPlain(text: string, after: string)
    requires MarkupOk(Other(text), after)
    ensures EndsFirst(text, ">")
    ensures var s := "!" + (text + (">" + after));
            && !(Peek(s, 1) == '-' && Peek(s, 2) == '-') && !("![CDATA[" <= s)
            && !("!DOCTYPE" <= s && IsSpace(Peek(s, 8)))
  {
    forall i | 0 <= i < |text| ensures !(">" <= (text + ">")[i..]) { assert (text + ">")[i..][0] == text[i]; }
    var t := text + (">" + after);
    NoSuchStart(text, after, "--");
    NoSuchStart(text, after, "[CDATA[");
    NoSuchStart(text, after, "DOCTYPE");
    LedBy('!', "[CDATA[", t);
    LedBy('!', "DOCTYPE", t);
    Begins(t, "--");
    assert ['!'] + t == "!" + t;
    assert t[|text|] == '>' && (forall i | 0 <= i < |text| :: t[i] == text[i]);
  }

  lemma NoSuchStart(text: string, after: string, word: string)
    requires '>' !in word
    ensures word <= text + (">" + after) <==> word <= text
  {
    var t := text + (">" + after);
    if |word| <= |text| {
      assert t[..|word|] == text[..|word|];
    } else {
      assert t[|text|] == '>' && word[|text|] in word;
    }
  }

  lemma LedBy(c: char, word: string, t: string)
    ensures [c] + word <= [c] + t <==> word <= t
    ensures forall i | 0 <= i :: Peek([c] + t, i + 1) == Peek(t, i)
  {
    if |word| <= |t| {
      assert ([c] + t)[..1 + |word|] == [c] + t[..|word|];
      assert [c] + word == [c] + t[..|word|] <==> word == t[..|word|] by {
        assert ([c] + word)[1..] == word && ([c] + t[..|word|])[1..] == t[..|word|];
      }
    }
  }

  lemma MarkRead(m: Markup, after: string)
    requires !m.Tagged? && MarkupOk(m, after)
    ensures ParseNode(WriteMarkup(m) + after) == Done(Only(MeansMarkup(m)), after)
  {
    hide ParseNode, EndsFirst, WriteParts, PartsOk;
    match m
    case Instruction(text) => InstructionRead(text, after);
    case Comment(text) => CommentRead(text, after);
    case Section(text) => SectionRead(text, after);
    case Doctype(space, parts) => DoctypeRead(space, parts, after);
    case Other(text) => OtherRead(text, after);
  }

  // ---- elements ----

  lemma ElementHead(name: string, gap: string, attrs: seq<AttrForm>, tail: string)
    requires name != "" && NameText(name) && SpaceText(gap) && (attrs != [] ==> gap != "")
    requires AttrsOk(attrs, tail) && tail != "" && (tail[0] == '>' || tail[0] == '/')
    ensures var s := name + (gap + (WriteAttrs(attrs) + tail));
            && SpanLen(IsNameChar, s) == |name| && s[..|name|] == name
            && ParseAttrs(SkipSpace(s[|name|..])) == Done(MeansAttrs(attrs), tail)
  {
    hide SkipSpace, SpanLen, ParseAttrs, AttrsOk, MeansAttrs, WriteAttrs;
    var t := WriteAttrs(attrs) + tail;
    var s := name + (gap + t);
    AttrsRead(attrs, tail);
    AttrsBegin(attrs, tail);
    NameExactly(name);
    NameStops(gap, attrs, tail);
    R.SpanStops(IsNameChar, name, gap + t);
    assert s[|name|..] == gap + t;
    GapSkipped(gap, t);
  }

  lemma NameStops(gap: string, attrs: seq<AttrForm>, tail: string)
    requires SpaceText(gap) && (attrs != [] ==> gap != "") && tail != "" && (tail[0] == '>' || tail[0] == '/')
    ensures var u := gap + (WriteAttrs(attrs) + tail); u != "" && !IsNameChar(u[0])
  {
    hide WriteAttrs;
    NoAttrText(tail);
    var t := WriteAttrs(attrs) + tail;
    assert (gap + t)[0] == if gap != "" then gap[0] else t[0];
  }

  lemma NoAttrText(tail: string)
    ensures WriteAttrs([]) + tail == tail
  {}

  lemma AttrsBegin(attrs: seq<AttrForm>, tail: string)
    requires AttrsOk(attrs, tail) && tail != "" && (tail[0] == '>' || tail[0] == '/')
    ensures var t := WriteAttrs(attrs) + tail; t != "" && !IsSpace(t[0])
  {
    hide WriteAttr, AttrOk;
    if attrs == [] {
      NoAttrText(tail);
    } else {
      var rest := WriteAttrs(attrs[1..]) + tail;
      AttrBegins(attrs[0], rest);
      assert WriteAttrs(attrs) + tail == WriteAttr(attrs[0]) + rest;
    }
  }

  lemma AttrBegins(a: AttrForm, rest: string)
    requires AttrOk(a, rest)
    ensures var t := WriteAttr(a) + rest; t != "" && !IsSpace(t[0])
  {
    hide WriteAttr, WriteChunks, ChunksOk, ParseAttr;
    AttrRead(a, rest);
  }

  lemma ClosedRead(name: string, gap: string, attrs: seq<AttrForm>, after: string)
    requires MarkupOk(Tagged(name, gap, attrs, Closed), after)
    ensures ParseElement(name + (gap + (WriteAttrs(attrs) + ("/>" + after))))
            == Done(MeansElement(name, MeansAttrs(attrs), []), after)
  {
    hide SkipSpace, SpanLen, ParseAttrs, AttrsOk, MeansAttrs, WriteAttrs, ParseContents, NameText, SpaceText;
    var tail := "/>" + after;
    ElementHead(name, gap, attrs, tail);
    assert tail[0] == '/' && tail[1] == '>' && tail[2..] == after;
  }

  lemma OpenRead(name: string, gap: string, attrs: seq<AttrForm>, inner: string, kids: seq<Node>, after: string)
    requires name != "" && NameText(name) && SpaceText(gap) && (attrs != [] ==> gap != "")
    requires AttrsOk(attrs, ">" + inner) && ParseContents(inner) == Done(kids, after)
    ensures ParseElement(name + (gap + (WriteAttrs(attrs) + (">" + inner))))
            == Done(MeansElement(name, MeansAttrs(attrs), kids), after)
  {
    hide SkipSpace, SpanLen, ParseAttrs, AttrsOk, MeansAttrs, WriteAttrs, ParseContents, NameText, SpaceText,
         ElementValue;
    var tail := ">" + inner;
    ElementHead(name, gap, attrs, tail);
    assert tail[0] == '>' && tail[1..] == inner;
  }

  lemma ElementText(name: string, gap: string, attrs: seq<AttrForm>, body: Body, after: string)
    ensures WriteMarkup(Tagged(name, gap, attrs, body)) + after
            == name + (gap + (WriteAttrs(attrs) + (WriteBody(body) + after)))
  {
    hide WriteAttrs, WriteBody;
    FourParts(name, gap, WriteAttrs(attrs), WriteBody(body), after);
  }

  lemma FourParts(a: string, b: string, c: string, d: string, e: string)
    ensures a + b + c + d + e == a + (b + (c + (d + e)))
  {}

  lemma ElementNode(name: string, rest: string, n: Node, after: string)
    requires name != "" && NameText(name) && name[0] != '!' && ParseElement(name + rest) == Done(n, after)
    ensures ParseNode(name + rest) == Done(Some(n), after)
  {
    hide ParseElement, ParseNode;
    assert (name + rest)[0] == name[0] && name[0] != '?';
    R.ElementIsNode(name + rest, n, after);
  }

  lemma ClosedNode(m: Markup, after: string)
    requires m.Tagged? && m.body.Closed? && MarkupOk(m, after)
    ensures ParseNode(WriteMarkup(m) + after) == Done(Only(MeansMarkup(m)), after)
  {
    hide ParseNode, ParseElement, AttrsOk, NameText, SpaceText, MeansAttrs, WriteAttrs, ElementValue;
    ElementText(m.name, m.gap, m.attrs, m.body, after);
    ClosedRead(m.name, m.gap, m.attrs, after);
    var n := MeansElement(m.name, MeansAttrs(m.attrs), []);
    ElementNode(m.name, m.gap + (WriteAttrs(m.attrs) + ("/>" + after)), n, after);
    assert MeansMarkup(m) == [n];
  }

  lemma OpenNode(m: Markup, after: string)
    requires m.Tagged? && m.body.Open? && MarkupOk(m, after)
    requires ParseContents(WriteContent(m.body.content) + after) == Done(MeansContent(m.body.content), after)
    ensures ParseNode(WriteMarkup(m) + after) == Done(Only(MeansMarkup(m)), after)
  {
    hide ParseNode, ParseElement, ParseContents, ContentOk, AttrsOk, NameText, SpaceText, MeansAttrs, WriteAttrs,
         ElementValue, WriteContent, MeansContent;
    var inner, kids := WriteContent(m.body.content) + after, MeansContent(m.body.content);
    ElementText(m.name, m.gap, m.attrs, m.body, after);
    assert WriteBody(m.body) + after == ">" + inner;
    OpenRead(m.name, m.gap, m.attrs, inner, kids, after);
    var n := MeansElement(m.name, MeansAttrs(m.attrs), kids);
    ElementNode(m.name, m.gap + (WriteAttrs(m.attrs) + (">" + inner)), n, after);
    assert MeansMarkup(m) == [n];
  }

  /** Everything that can stand behind a '<' is read as what it means. */
  lemma {:induction false} MarkupRead(m: Markup, after: string)
    requires MarkupOk(m, after)
    ensures ParseNode(WriteMarkup(m) + after) == Done(Only(MeansMarkup(m)), after)
    decreases m
  {
    hide ParseNode, ParseContents, ContentOk, AttrsOk, NameText, SpaceText, EndsFirst, PartsOk, WriteMarkup,
         MeansMarkup, WriteContent, MeansContent;
    if !m.Tagged? {
      MarkRead(m, after);
    } else if m.body.Closed? {
      ClosedNode(m, after);
    } else {
      ContentRead(m.body.content, after);
      OpenNode(m, after);
    }
  }

  // ---- contents ----

  lemma {:induction false} TextBegins(w: string, rest: string)
    requires !SpaceText(w) && '<' !in w && NUL !in w
    ensures R.BeginsData(Peek(SkipSpace(w + rest), 0))
  {
    hide SkipSpace;
    var c, tail := w[0], w[1..] + rest;
    assert w + rest == [c] + tail && c in w;
    if IsSpace(c) {
      var i :| 0 <= i < |w| && w[i] !in " \t\n\r";
      assert w[1..][i - 1] == w[i];
      TextBegins(w[1..], rest);
      R.SkipOne(c, tail);
    } else {
      R.NothingToSkip(w + rest);
    }
  }

  lemma {:induction false} ChunksPlain(ks: seq<Chunk>, after: string)
    requires ChunksOk('<', ks, after)
    ensures '<' !in WriteChunks(ks) && NUL !in WriteChunks(ks)
  {
    hide ChunkOk, WriteChunk;
    if ks != [] {
      ChunkPlain(ks[0], WriteChunks(ks[1..]) + after);
      ChunksPlain(ks[1..], after);
    }
  }

  lemma ChunkPlain(k: Chunk, after: string)
    requires ChunkOk('<', k, after)
    ensures '<' !in WriteChunk(k) && NUL !in WriteChunk(k)
  {
    hide Value;
    if k.Decimal? || k.Hex? { DigitsPlain(k.digits); }
  }

  lemma DigitsPlain(digits: string)
    requires AllHex(digits)
    ensures '<' !in digits && NUL !in digits
  {
    forall i | 0 <= i < |digits| ensures digits[i] != '<' && digits[i] != NUL {
      hide IsHexDigit;
      TableExactly(digits[i]);
    }
  }

  lemma TextThenTag(text: seq<Chunk>, tag: string, kids: seq<Node>, after: string)
    requires ChunksOk('<', text, "<" + tag) && ParseTag("<" + tag) == Done(kids, after)
    ensures ParseContents(WriteChunks(text) + ("<" + tag)) == Done(MeansText(text) + kids, after)
  {
    hide ParseTag, WriteChunks, ChunksOk, MeansChunks, Expand, SkipSpace;
    var w, end := WriteChunks(text), "<" + tag;
    if SpaceText(w) {
      GapSkipped(w, end);
      assert [] + kids == kids;
    } else {
      ChunksPlain(text, end);
      TextBegins(w, end);
      ChunksRead(AtTag, text, end);
    }
  }

  lemma {:induction false} ContentRead(c: Content, after: string)
    requires ContentOk(c, after)
    ensures ParseContents(WriteContent(c) + after) == Done(MeansContent(c), after)
    decreases c
  {
    hide ParseContents, ParseTag, ChunksOk, WriteChunks, TagOk;
    var tag := WriteTag(c.tag) + after;
    TagRead(c.tag, after);
    TagText(WriteChunks(c.text), WriteTag(c.tag), after);
    TextThenTag(c.text, tag, MeansTag(c.tag), after);
  }

  lemma TagText(w: string, tag: string, after: string)
    ensures "<" + tag + after == "<" + (tag + after) && w + "<" + tag + after == w + ("<" + (tag + after))
  {}

  lemma CloseRead(name: string, gap: string, after: string)
    requires NameText(name) && SpaceText(gap)
    ensures ParseTag("<" + ("/" + name + gap + ">" + after)) == Done([], after)
  {
    hide SkipSpace, SpanLen, ParseNode, ParseContents;
    var s, end := "<" + ("/" + name + gap + ">" + after), gap + (">" + after);
    assert s[0] == '<' && s[1] == '/' && s[2..] == name + end;
    assert end[0] == if gap != "" then gap[0] else '>';
    NameExactly(name);
    R.SpanStops(IsNameChar, name, end);
    assert (name + end)[|name|..] == end;
    GapSkipped(gap, ">" + after);
    assert (">" + after)[1..] == after;
  }

  lemma ChildRead(text: string, node: seq<Node>, more: string, kids: seq<Node>, after: string)
    requires text != "" && text[0] != '/' && |node| <= 1
    requires ParseNode(text + more) == Done(Only(node), more) && ParseContents(more) == Done(kids, after)
    ensures ParseTag("<" + (text + more)) == Done(node + kids, after)
  {
    hide ParseNode, ParseContents;
    var s := "<" + (text + more);
    assert s[0] == '<' && s[1] == text[0] && s[1..] == text + more;
    if node == [] { assert node + kids == kids; } else { assert node + kids == [node[0]] + kids; }
  }

  lemma MarkupBegins(m: Markup, after: string)
    requires MarkupOk(m, after)
    ensures WriteMarkup(m) != "" && WriteMarkup(m)[0] != '/' && |MeansMarkup(m)| <= 1
  {
    hide AttrsOk, BodyOk, PartsOk, EndsFirst, WriteAttrs, WriteBody, WriteParts;
    if m.Tagged? { assert WriteMarkup(m)[0] == m.name[0]; }
  }

  lemma {:induction false} TagRead(t: Tag, after: string)
    requires TagOk(t, after)
    ensures ParseTag("<" + (WriteTag(t) + after)) == Done(MeansTag(t), after)
    decreases t
  {
    hide ParseTag, ParseNode, ParseContents, ContentOk, MarkupOk, WriteMarkup, WriteContent, MeansMarkup, MeansContent;
    match t
    case Close(name, gap) => CloseRead(name, gap, after);
    case Child(child, more) =>
      var rest := WriteContent(more) + after;
      MarkupRead(child, rest);
      MarkupBegins(child, rest);
      ContentRead(more, after);
      assert WriteTag(t) + after == WriteMarkup(child) + rest;
      ChildRead(WriteMarkup(child), MeansMarkup(child), rest, MeansContent(more), after);
  }

  // ---- documents ----

  lemma TopRead(gap: string, text: string, node: seq<Node>, more: string, kids: seq<Node>, after: string)
    requires SpaceText(gap) && |node| <= 1
    requires ParseNode(text + more) == Done(Only(node), more) && |more| < |text + more|
    requires ParseTop(more) == Done(kids, after)
    ensures ParseTop(gap + ("<" + (text + more))) == Done(node + kids, after)
  {
    hide ParseNode, SkipSpace;
    var t := "<" + (text + more);
    GapSkipped(gap, t);
    assert t[0] == '<' && t[1..] == text + more;
    if node == [] { assert node + kids == kids; } else { assert node + kids == [node[0]] + kids; }
  }

  lemma EndRead(gap: string, after: string)
    requires SpaceText(gap) && (after == "" || after[0] == NUL)
    ensures ParseTop(gap + after) == Done([], after)
  {
    hide SkipSpace;
    GapSkipped(gap, after);
  }

  lemma {:induction false} ItemsRead(items: seq<Item>, gap: string, after: string)
    requires ItemsOk(items, gap + after) && SpaceText(gap) && (after == "" || after[0] == NUL)
    ensures ParseTop(WriteItems(items) + (gap + after)) == Done(MeansItems(items), after)
    decreases |items|
  {
    hide ParseTop, ParseNode, MarkupOk, WriteMarkup, MeansMarkup, SpaceText;
    if items == [] {
      assert WriteItems(items) + (gap + after) == gap + after;
      EndRead(gap, after);
    } else {
      var i, more := items[0], WriteItems(items[1..]) + (gap + after);
      MarkupRead(i.markup, more);
      MarkupBegins(i.markup, more);
      ItemsRead(items[1..], gap, after);
      TopRead(i.gap, WriteMarkup(i.markup), MeansMarkup(i.markup), more, MeansItems(items[1..]), after);
      ItemText(i.gap, WriteMarkup(i.markup), WriteItems(items[1..]), gap + after);
    }
  }

  lemma ItemText(gap: string, text: string, more: string, after: string)
    ensures gap + "<" + text + more + after == gap + ("<" + (text + (more + after)))
  {}

  const MARK := [0xEF as char, 0xBB as char, 0xBF as char]

  /** Every text of a document is read as the nodes it means, up to the end. */
  lemma DocumentRead(d: Document, after: string)
    requires DocumentOk(d, after)
    ensures ParseDocument(WriteDocument(d) + after) == Done(MeansItems(d.items), after)
  {
    hide ParseTop, ItemsOk, WriteItems, MeansItems;
    var t := WriteItems(d.items) + (d.gap + after);
    ItemsRead(d.items, d.gap, after);
    if d.marked {
      var s := MARK + t;
      assert WriteDocument(d) + after == s;
      assert s[0] == MARK[0] && s[1] == MARK[1] && s[2] == MARK[2] && s[3..] == t;
    } else {
      assert WriteDocument(d) + after == t;
      ItemsBegin(d.items, d.gap, after);
    }
  }

  lemma ItemsBegin(items: seq<Item>, gap: string, after: string)
    requires ItemsOk(items, gap + after) && SpaceText(gap) && (after == "" || after[0] == NUL)
    ensures Peek(WriteItems(items) + (gap + after), 0) as int != 0xEF
  {
    hide MarkupOk, WriteMarkup;
    var t := WriteItems(items) + (gap + after);
    if items == [] {
      assert t == gap + after;
      assert t != "" ==> t[0] == if gap != "" then gap[0] else after[0];
    } else {
      assert t[0] == if items[0].gap != "" then items[0].gap[0] else '<';
    }
  }
}
