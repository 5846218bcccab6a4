/** The parser reads nothing but the texts of XmlGrammar: with XmlReads, a text is read as some
    nodes exactly when it is a way of writing them. */
module XmlExact {
  import opened Wrappers
  import opened Words
  import opened XmlText
  import opened XmlTree
  import opened XmlDigits
  import opened XmlGrammar
  import opened XmlReads
  import R = XmlRoundTrip

  // ---- character data ----

  /** Where a reference is known, it is one of the five entities or has digits. */
  lemma NamedOnly(s: string) returns (k: Chunk)
    requires s != "" && s[0] == '&' && RefAt(s).Known? && Peek(s, 1) != '#'
    ensures k.Named? && k.name in {"lt", "gt", "amp", "apos", "quot"}
    ensures RefAt(s) == Known(MeansChunk(k), |WriteChunk(k)|) && WriteChunk(k) <= s
  {
    hide Numeric;
    var c := RefAt(s).text[0];
    k := Named(if c == '<' then "lt" else if c == '>' then "gt" else if c == '&' then "amp"
               else if c == '\'' then "apos" else "quot");
    assert |RefAt(s).text| == 1;
    var w := WriteChunk(k);
    assert forall i | 0 <= i < |w| :: Peek(s, i) == w[i];
    Begins(s, w);
  }

  lemma {:induction false} DigitsOnly(s: string)
    ensures AllHex(s[..DigitCount(s)])
    ensures DigitCount(s) < |s| ==> !IsHexDigit(s[DigitCount(s)])
  {
    hide IsHexDigit, DigitValue;
    var n := DigitCount(s);
    if s != "" { TableExactly(s[0]); }
    if n > 0 {
      DigitsOnly(s[1..]);
      assert s[..n] == [s[0]] + s[1..][..n - 1];
      assert n < |s| ==> s[n] == s[1..][n - 1];
    }
  }

  lemma NumericOnly(s: string, at: nat, base: nat)
    requires at <= |s| && Numeric(s, at, base).Known?
    ensures var n := DigitCount(s[at..]);
            && at + n < |s| && s[at + n] == ';' && Numeric(s, at, base).len == at + n + 1
            && AllHex(s[at..at + n]) && Value(s[at..at + n], base) % TWO_64 < 0x110000
            && Numeric(s, at, base).text == Utf8(Value(s[at..at + n], base) % TWO_64)
  {
    hide IsHexDigit, CodeOf, Value, Utf8;
    var t := s[at..];
    var n := DigitCount(t);
    DigitsOnly(t);
    assert t == t[..n] + t[n..] && t[..n] == s[at..at + n];
    assert t[n..] != "" ==> t[n..][0] == t[n];
    CodeIsValue(t[..n], t[n..], base);
    CodeSmall(Value(t[..n], base) % TWO_64);
  }

  lemma CodeSmall(code: nat)
    ensures Utf8(code) != [] <==> code < 0x110000
  {}

  lemma HashOnly(s: string) returns (k: Chunk)
    requires s != "" && s[0] == '&' && RefAt(s).Known? && Peek(s, 1) == '#'
    ensures !k.Plain? && (forall stop, after :: ChunkOk(stop, k, after))
    ensures RefAt(s) == Known(MeansChunk(k), |WriteChunk(k)|) && WriteChunk(k) <= s
  {
    hide Numeric, AllHex, Value, Utf8;
    if Peek(s, 2) == 'x' {
      NumericOnly(s, 3, 16);
      var n := DigitCount(s[3..]);
      k := Hex(s[3..3 + n]);
      assert s[..n + 4] == "&#x" + s[3..3 + n] + ";";
    } else {
      NumericOnly(s, 2, 10);
      var n := DigitCount(s[2..]);
      k := Decimal(s[2..2 + n]);
      assert s[..n + 3] == "&#" + s[2..2 + n] + ";";
    }
  }

  /** One piece of character data at the front of the text. */
  lemma ChunkOnly(stop: Stop, s: string) returns (k: Chunk)
    requires stop.Continues(Peek(s, 0)) && Expand(stop, s).Done?
    ensures WriteChunk(k) <= s && ChunkOk(End(stop), k, s[|WriteChunk(k)|..])
    ensures Expand(stop, s) == Prepend(MeansChunk(k), Expand(stop, s[|WriteChunk(k)|..]))
  {
    hide RefAt, Utf8, Bare;
    if s[0] == '&' && !RefAt(s).NoRef? {
      if Peek(s, 1) == '#' { k := HashOnly(s); } else { k := NamedOnly(s); }
    } else {
      k := Plain(s[0]);
      if s[0] == '&' { BareAmpersand(s); }
    }
  }

  lemma ChunksCons(stop: char, k: Chunk, more: seq<Chunk>, after: string)
    requires ChunksOk(stop, more, after) && ChunkOk(stop, k, WriteChunks(more) + after)
    ensures ChunksOk(stop, [k] + more, after) && MeansChunks([k] + more) == MeansChunk(k) + MeansChunks(more)
    ensures WriteChunks([k] + more) + after == WriteChunk(k) + (WriteChunks(more) + after)
  {
    hide WriteChunk, MeansChunk, ChunkOk;
    assert ([k] + more)[1..] == more;
  }

  lemma NoChunks(stop: Stop, s: string)
    requires !stop.Continues(Peek(s, 0))
    ensures Expand(stop, s) == Done("", s) && WriteChunks([]) + s == s && MeansChunks([]) == ""
    ensures ChunksOk(End(stop), [], s)
  {}

  lemma {:induction false} ChunksOnly(stop: Stop, s: string) returns (ks: seq<Chunk>)
    requires Expand(stop, s).Done?
    ensures var r := Expand(stop, s);
            s == WriteChunks(ks) + r.rest && ChunksOk(End(stop), ks, r.rest) && MeansChunks(ks) == r.value
    decreases |s|
  {
    hide Expand, WriteChunks, MeansChunks, ChunksOk, MeansChunk, ChunkOk;
    if !stop.Continues(Peek(s, 0)) {
      ks := [];
      NoChunks(stop, s);
    } else {
      var k := ChunkOnly(stop, s);
      var t := s[|WriteChunk(k)|..];
      assert s == WriteChunk(k) + t;
      var more := ChunksOnly(stop, t);
      ks := [k] + more;
      ChunksCons(End(stop), k, more, Expand(stop, t).rest);
    }
  }

  // ---- attributes ----

  lemma SpanOnly(p: char -> bool, s: string)
    ensures var n := SpanLen(p, s); s == s[..n] + s[n..] && R.All(p, s[..n])
  {
    hide SpanLen;
    SpanAll(p, s);
  }

  lemma GapOnly(s: string) returns (gap: string)
    ensures SpaceText(gap) && s == gap + SkipSpace(s)
  {
    SpanOnly(IsSpace, s);
    gap := s[..SpanLen(IsSpace, s)];
    SpaceExactly(gap);
  }

  lemma HeadOnly(s: string) returns (before: string, behind: string)
    requires IsAttrNameChar(Peek(s, 0)) && AttrHead(s).Done?
    ensures var h := AttrHead(s);
            && s == h.value.0 + (before + ("=" + (behind + ([h.value.1] + h.rest))))
            && h.value.0 != "" && AttrNameText(h.value.0) && SpaceText(before) && SpaceText(behind)
            && (h.value.1 == '\'' || h.value.1 == '"')
  {
    hide SkipSpace, SpaceText;
    var n := SpanLen(IsAttrNameChar, s);
    SpanOnly(IsAttrNameChar, s);
    AttrNameExactly(s[..n]);
    before := GapOnly(s[n..]);
    var s1 := SkipSpace(s[n..]);
    assert s1 == "=" + s1[1..];
    behind := GapOnly(s1[1..]);
    var s2 := SkipSpace(s1[1..]);
    assert s2 == [s2[0]] + s2[1..];
  }

  lemma AttrOnly(s: string) returns (a: AttrForm)
    requires IsAttrNameChar(Peek(s, 0)) && ParseAttr(s).Done?
    ensures var r := ParseAttr(s);
            a.gap == "" && s == WriteAttr(a) + r.rest && AttrOk(a, r.rest) && MeansAttr(a) == r.value
  {
    hide AttrHead, Expand, SpaceText, AttrNameText, ChunksOk, WriteChunks, MeansChunks;
    var h := AttrHead(s);
    var before, behind := HeadOnly(s);
    var q := h.value.1;
    var v := Expand(AtQuote(q), h.rest);
    var ks := ChunksOnly(AtQuote(q), h.rest);
    a := AttrForm(h.value.0, before, behind, q, ks, "");
    AttrText(a, v.rest[1..]);
    assert v.rest == [q] + "" + v.rest[1..];
    NoGap();
  }

  lemma NoGap()
    ensures SpaceText("")
  {}

  /** The white space behind an attribute belongs to it. */
  lemma AttrWithGap(a: AttrForm, gap: string, after: string)
    requires a.gap == "" && AttrOk(a, gap + after) && SpaceText(gap)
    ensures var b := a.(gap := gap);
            AttrOk(b, after) && WriteAttr(b) + after == WriteAttr(a) + (gap + after) && MeansAttr(b) == MeansAttr(a)
  {
    hide ChunksOk, WriteChunks, MeansChunks, SpaceText, AttrNameText;
    assert [a.quote] + "" + (gap + after) == [a.quote] + gap + after;
    AttrText(a, gap + after);
    AttrText(a.(gap := gap), after);
  }

  lemma {:induction false} AttrsOnly(s: string) returns (attrs: seq<AttrForm>)
    requires ParseAttrs(s).Done?
    ensures var r := ParseAttrs(s);
            s == WriteAttrs(attrs) + r.rest && AttrsOk(attrs, r.rest) && MeansAttrs(attrs) == r.value
    decreases |s|
  {
    hide ParseAttr, SkipSpace, AttrOk, WriteAttr, MeansAttr;
    if !IsAttrNameChar(Peek(s, 0)) {
      attrs := [];
    } else {
      var p := ParseAttr(s);
      var a := AttrOnly(s);
      var gap := GapOnly(p.rest);
      var t := SkipSpace(p.rest);
      GaplessAttr(a, p.rest);
      AttrWithGap(a, gap, t);
      var more := AttrsOnly(t);
      attrs := [a.(gap := gap)] + more;
      assert attrs[1..] == more;
    }
  }

  lemma GaplessAttr(a: AttrForm, rest: string)
    requires AttrOk(a, rest)
    ensures SpaceText(a.gap)
  {}

  // ---- what is read over ----

  lemma AfterStep(s: string, mark: string)
    requires mark != "" && !(mark <= s) && After(s, mark).Done?
    ensures s != "" && s[0] != NUL && After(s[1..], mark).Done?
    ensures After(s, mark) == Done([s[0]] + After(s[1..], mark).value, After(s[1..], mark).rest)
  {}

  lemma AfterNow(s: string, mark: string)
    requires mark != "" && mark <= s
    ensures After(s, mark) == Done("", s[|mark|..]) && s == "" + (mark + s[|mark|..]) && EndsFirst("", mark)
  {}

  lemma {:induction false} MarkOnly(s: string, mark: string)
    requires mark != "" && After(s, mark).Done?
    ensures var r := After(s, mark); s == r.value + (mark + r.rest) && NulFree(r.value) && EndsFirst(r.value, mark)
    decreases |s|
  {
    hide After, EndsFirst;
    if mark <= s {
      AfterNow(s, mark);
    } else {
      AfterStep(s, mark);
      MarkOnly(s[1..], mark);
      var v, rest := After(s[1..], mark).value, After(s, mark).rest;
      assert s == [s[0]] + v + (mark + rest) && ([s[0]] + v)[1..] == v;
      NotFirst([s[0]] + v, mark, rest);
    }
  }

  lemma NotFirst(text: string, mark: string, after: string)
    requires text != "" && EndsFirst(text[1..], mark) && !(mark <= text + (mark + after))
    ensures EndsFirst(text, mark)
  {
    forall i | 0 <= i < |text| ensures !(mark <= (text + mark)[i..]) {
      if i == 0 {
        assert (text + mark)[0..] == text + mark;
        assert (text + (mark + after))[..|mark|] == (text + mark)[..|mark|];
      } else {
        assert (text + mark)[i..] == (text[1..] + mark)[i - 1..];
      }
    }
  }

  lemma DoctypeNext(s: string, depth: nat)
    requires AfterDoctype(s, depth).Done?
    ensures s != "" && s[0] != NUL && s == [s[0]] + s[1..]
    ensures depth == 0 && s[0] == '>' ==> AfterDoctype(s, depth).rest == s[1..]
    ensures !(depth == 0 && s[0] == '>') ==>
              var c := s[0];
              AfterDoctype(s, depth) ==
                AfterDoctype(s[1..], if c == '[' then depth + 1 else if c == ']' && depth > 0 then depth - 1 else depth)
  {}

  lemma NoParts(after: string)
    ensures WriteParts([]) + after == after && PartsOk([], true) && PartsOk([], false)
  {}

  lemma BracketsText(inner: seq<Part>, u: string)
    ensures WritePart(Brackets(inner)) + u == "[" + (WriteParts(inner) + ("]" + u))
  {
    hide WriteParts;
  }

  /** Inside brackets: everything up to the bracket that closes this level. */
  lemma {:induction false} InsideOnly(s: string, depth: nat) returns (parts: seq<Part>, t: string)
    requires depth > 0 && AfterDoctype(s, depth).Done?
    ensures PartsOk(parts, true) && s == WriteParts(parts) + ("]" + t)
    ensures AfterDoctype(s, depth) == AfterDoctype(t, depth - 1) && |t| < |s|
    decreases |s|
  {
    hide AfterDoctype, WriteParts, WritePart, PartsOk;
    var c := s[0];
    DoctypeNext(s, depth);
    if c == ']' {
      parts, t := [], s[1..];
      NoParts("]" + t);
    } else if c == '[' {
      var inner, u := InsideOnly(s[1..], depth + 1);
      var more;
      more, t := InsideOnly(u, depth);
      parts := [Brackets(inner)] + more;
      BracketsText(inner, u);
      PartsText(Brackets(inner), more, "]" + t);
    } else {
      var more;
      more, t := InsideOnly(s[1..], depth);
      parts := [Loose(c)] + more;
      LooseText(c);
      PartsText(Loose(c), more, "]" + t);
    }
  }

  lemma LooseText(c: char)
    ensures WritePart(Loose(c)) == [c]
  {}

  lemma PartsText(p: Part, more: seq<Part>, after: string)
    ensures WriteParts([p] + more) + after == WritePart(p) + (WriteParts(more) + after)
    ensures forall inside :: PartsOk([p] + more, inside) <==> PartOk(p, inside) && PartsOk(more, inside)
  {
    hide WritePart, PartOk;
    assert ([p] + more)[1..] == more;
  }

  lemma {:induction false} OutsideOnly(s: string) returns (parts: seq<Part>)
    requires AfterDoctype(s, 0).Done?
    ensures PartsOk(parts, false) && s == WriteParts(parts) + (">" + AfterDoctype(s, 0).rest)
    decreases |s|
  {
    hide AfterDoctype, WriteParts, WritePart, PartsOk;
    var c, end := s[0], ">" + AfterDoctype(s, 0).rest;
    DoctypeNext(s, 0);
    if c == '>' {
      parts := [];
      NoParts(end);
    } else if c == '[' {
      var inner, u := InsideOnly(s[1..], 1);
      var more := OutsideOnly(u);
      parts := [Brackets(inner)] + more;
      BracketsText(inner, u);
      PartsText(Brackets(inner), more, end);
    } else {
      var more := OutsideOnly(s[1..]);
      parts := [Loose(c)] + more;
      LooseText(c);
      PartsText(Loose(c), more, end);
    }
  }

  lemma InstructionOnly(s: string) returns (m: Markup)
    requires Peek(s, 0) == '?' && ParseNode(s).Done?
    ensures s == WriteMarkup(m) + ParseNode(s).rest && MarkupOk(m, ParseNode(s).rest)
    ensures MeansMarkup(m) == [] && ParseNode(s).value == None
  {
    hide After, ParseElement, EndsFirst;
    var t, rest := s[1..], ParseNode(s).rest;
    assert s == "?" + t;
    var text;
    if IsXmlDeclaration(t) {
      DeclarationParts(t);
      MarkOnly(t[4..], "?>");
      var v := After(t[4..], "?>").value;
      text := t[..4] + v;
      assert s[5..] == t[4..];
      LaterMark(t[..4], v);
      assert t == text + ("?>" + rest);
    } else {
      MarkOnly(t, "?>");
      text := After(t, "?>").value;
    }
    m := Instruction(text);
    assert WriteMarkup(m) + rest == "?" + (text + ("?>" + rest));
  }

  lemma DeclarationParts(t: string)
    requires IsXmlDeclaration(t)
    ensures |t| >= 4 && forall i | 0 <= i < 4 :: t[i] != '?' && t[i] != NUL
  {
    assert Peek(t, 0) != NUL && Peek(t, 1) != NUL && Peek(t, 2) != NUL && Peek(t, 3) != NUL;
  }

  lemma LaterMark(lead: string, text: string)
    requires NulFree(text) && EndsFirst(text, "?>") && (forall i | 0 <= i < |lead| :: lead[i] != '?' && lead[i] != NUL)
    ensures NulFree(lead + text) && EndsFirst(lead + text, "?>")
  {
    forall i | 0 <= i < |lead + text| ensures !("?>" <= (lead + text + "?>")[i..]) {
      if i < |lead| {
        assert (lead + text + "?>")[i..][0] == lead[i];
      } else {
        assert (lead + text + "?>")[i..] == (text + "?>")[i - |lead|..];
      }
    }
  }

  lemma CommentOnly(s: string) returns (m: Markup)
    requires Peek(s, 0) == '!' && Peek(s, 1) == '-' && Peek(s, 2) == '-' && ParseNode(s).Done?
    ensures s == WriteMarkup(m) + ParseNode(s).rest && MarkupOk(m, ParseNode(s).rest)
    ensures MeansMarkup(m) == [] && ParseNode(s).value == None
  {
    hide After, ParseElement, EndsFirst;
    MarkOnly(s[3..], "-->");
    m := Comment(After(s[3..], "-->").value);
    assert s[..3] == "!--" && s == s[..3] + s[3..];
  }

  lemma SectionOnly(s: string) returns (m: Markup)
    requires "![CDATA[" <= s && ParseNode(s).Done?
    ensures s == WriteMarkup(m) + ParseNode(s).rest && MarkupOk(m, ParseNode(s).rest)
    ensures |MeansMarkup(m)| == 1 && ParseNode(s).value == Some(MeansMarkup(m)[0])
  {
    hide After, ParseElement, EndsFirst;
    assert Peek(s, 0) == '!' && Peek(s, 1) == '[';
    MarkOnly(s[8..], "]]>");
    m := Section(After(s[8..], "]]>").value);
    assert s[..8] == "![CDATA[" && s == s[..8] + s[8..];
  }

  lemma DoctypeOnly(s: string) returns (m: Markup)
    requires "!DOCTYPE" <= s && IsSpace(Peek(s, 8)) && ParseNode(s).Done?
    ensures s == WriteMarkup(m) + ParseNode(s).rest && MarkupOk(m, ParseNode(s).rest)
    ensures MeansMarkup(m) == [] && ParseNode(s).value == None
  {
    hide After, AfterDoctype, ParseElement, WriteParts, PartsOk;
    assert Peek(s, 0) == '!' && Peek(s, 1) == 'D';
    var parts := OutsideOnly(s[9..]);
    m := Doctype(s[8], parts);
    assert s[..8] == "!DOCTYPE" && s == s[..8] + ([s[8]] + s[9..]);
  }

  lemma OtherOnly(s: string) returns (m: Markup)
    requires Peek(s, 0) == '!' && !(Peek(s, 1) == '-' && Peek(s, 2) == '-') && !("![CDATA[" <= s)
    requires !("!DOCTYPE" <= s && IsSpace(Peek(s, 8))) && ParseNode(s).Done?
    ensures s == WriteMarkup(m) + ParseNode(s).rest && MarkupOk(m, ParseNode(s).rest)
    ensures MeansMarkup(m) == [] && ParseNode(s).value == None
  {
    hide After, AfterDoctype, ParseElement;
    MarkOnly(s[1..], ">");
    var text, rest := After(s[1..], ">").value, ParseNode(s).rest;
    m := Other(text);
    assert s == ['!'] + s[1..] && s[1..] == text + (">" + rest);
    NoMark(text);
    NotSpecial(text, rest);
    assert WriteMarkup(m) + rest == ['!'] + (text + (">" + rest));
  }

  lemma NoMark(text: string)
    requires EndsFirst(text, ">")
    ensures '>' !in text
  {
    forall i | 0 <= i < |text| ensures text[i] != '>' {
      assert (text + ">")[i..][..1] == [text[i]];
    }
  }

  lemma NotSpecial(text: string, rest: string)
    requires var s := ['!'] + (text + (">" + rest));
             && !(Peek(s, 1) == '-' && Peek(s, 2) == '-') && !("![CDATA[" <= s)
             && !("!DOCTYPE" <= s && IsSpace(Peek(s, 8)))
    ensures !("--" <= text) && !("[CDATA[" <= text) && !(7 < |text| && "DOCTYPE" <= text && text[7] in " \t\n\r")
  {
    var t := text + (">" + rest);
    NoSuchStart(text, rest, "--");
    NoSuchStart(text, rest, "[CDATA[");
    NoSuchStart(text, rest, "DOCTYPE");
    LedBy('!', "[CDATA[", t);
    LedBy('!', "DOCTYPE", t);
    Begins(t, "--");
    assert 7 < |text| ==> t[7] == text[7];
  }

  lemma BangOnly(s: string) returns (m: Markup)
    requires Peek(s, 0) == '!' && ParseNode(s).Done?
    ensures s == WriteMarkup(m) + ParseNode(s).rest && MarkupOk(m, ParseNode(s).rest)
    ensures |MeansMarkup(m)| <= 1 && ParseNode(s).value == Only(MeansMarkup(m))
  {
    hide ParseNode, WriteMarkup, MarkupOk, MeansMarkup;
    if Peek(s, 1) == '-' && Peek(s, 2) == '-' {
      m := CommentOnly(s);
    } else if "![CDATA[" <= s {
      m := SectionOnly(s);
    } else if "!DOCTYPE" <= s && IsSpace(Peek(s, 8)) {
      m := DoctypeOnly(s);
    } else {
      m := OtherOnly(s);
    }
  }

  // ---- elements ----

  lemma {:induction false} SpanMax(p: char -> bool, s: string)
    ensures SpanLen(p, s) < |s| ==> !p(s[SpanLen(p, s)])
  {
    if s != "" && p(s[0]) { SpanMax(p, s[1..]); }
  }

  /** Name, white space and attributes of an element that is read. */
  lemma HeadForm(s: string, n: nat) returns (gap: string, attrs: seq<AttrForm>)
    requires n == SpanLen(IsNameChar, s) > 0 && ParseAttrs(SkipSpace(s[n..])).Done?
    ensures var r := ParseAttrs(SkipSpace(s[n..]));
            && s == s[..n] + (gap + (WriteAttrs(attrs) + r.rest)) && MeansAttrs(attrs) == r.value
            && NameText(s[..n]) && SpaceText(gap) && (attrs != [] ==> gap != "") && AttrsOk(attrs, r.rest)
  {
    hide SkipSpace, ParseAttrs, SpanLen, AttrsOk, WriteAttrs, MeansAttrs, SpaceText, NameText;
    SpanOnly(IsNameChar, s);
    NameExactly(s[..n]);
    gap := GapOnly(s[n..]);
    var t := SkipSpace(s[n..]);
    attrs := AttrsOnly(t);
    SpanMax(IsNameChar, s);
    if attrs != [] {
      AttrsLead(attrs, ParseAttrs(t).rest);
      GapNeeded(s[n..], gap, t);
    }
  }

  lemma GapNeeded(s: string, gap: string, t: string)
    requires s == gap + t && t != "" && IsNameChar(t[0]) && !IsNameChar(s[0])
    ensures gap != ""
  {
    assert gap == "" ==> s == t;
  }

  lemma AttrsLead(attrs: seq<AttrForm>, after: string)
    requires attrs != [] && AttrsOk(attrs, after)
    ensures var t := WriteAttrs(attrs) + after; t != "" && IsNameChar(t[0])
  {
    hide AttrOk, WriteAttr, ParseAttr;
    var rest := WriteAttrs(attrs[1..]) + after;
    AttrRead(attrs[0], rest);
    assert WriteAttrs(attrs) + after == WriteAttr(attrs[0]) + rest;
  }

  lemma {:induction false} ElementOnly(s: string) returns (m: Markup)
    requires s != "" && s[0] != '!' && ParseElement(s).Done?
    ensures s == WriteMarkup(m) + ParseElement(s).rest && MarkupOk(m, ParseElement(s).rest)
    ensures MeansMarkup(m) == [ParseElement(s).value]
    decreases |s|, 0
  {
    hide SkipSpace, ParseAttrs, SpanLen, AttrsOk, WriteAttrs, MeansAttrs, SpaceText, NameText, ParseContents,
         WriteContent, ContentOk, MeansContent;
    var n, rest := SpanLen(IsNameChar, s), ParseElement(s).rest;
    var gap, attrs := HeadForm(s, n);
    var tail := ParseAttrs(SkipSpace(s[n..])).rest;
    var body;
    if tail[0] == '>' {
      var c := ContentOnly(tail[1..]);
      body := Open(c);
      assert tail == ">" + tail[1..];
      assert WriteBody(body) + rest == tail;
    } else {
      body := Closed;
      assert tail == "/>" + rest;
    }
    m := Tagged(s[..n], gap, attrs, body);
    ElementText(s[..n], gap, attrs, body, rest);
  }

  lemma {:induction false} MarkupOnly(s: string) returns (m: Markup)
    requires ParseNode(s).Done?
    ensures s == WriteMarkup(m) + ParseNode(s).rest && MarkupOk(m, ParseNode(s).rest)
    ensures |MeansMarkup(m)| <= 1 && ParseNode(s).value == Only(MeansMarkup(m))
    decreases |s|, 1
  {
    hide ParseElement, WriteMarkup, MarkupOk, MeansMarkup, After, AfterDoctype;
    if Peek(s, 0) == '?' {
      m := InstructionOnly(s);
    } else if Peek(s, 0) == '!' {
      m := BangOnly(s);
    } else {
      NonEmptyElement(s);
      m := ElementOnly(s);
    }
  }

  lemma NonEmptyElement(s: string)
    requires ParseElement(s).Done?
    ensures s != ""
  {
    hide ParseAttrs, ParseContents;
  }

  // ---- contents ----

  function Spaces(gap: string): (ks: seq<Chunk>) {
    if gap == "" then [] else [Plain(gap[0])] + Spaces(gap[1..])
  }

  lemma {:induction false} SpacesAre(gap: string, after: string)
    requires SpaceText(gap)
    ensures WriteChunks(Spaces(gap)) == gap && ChunksOk('<', Spaces(gap), after) && MeansText(Spaces(gap)) == []
  {
    if gap != "" {
      SpacesAre(gap[1..], after);
      var more := Spaces(gap[1..]);
      hide MeansChunks, Bare;
      assert ChunkOk('<', Plain(gap[0]), WriteChunks(more) + after);
      ChunksCons('<', Plain(gap[0]), more, after);
      ChunksCons('<', Plain(gap[0]), more, after);
      assert Spaces(gap)[1..] == more && gap == [gap[0]] + gap[1..];
    }
  }

  lemma TextForm(s: string) returns (text: seq<Chunk>, tag: string)
    requires ParseContents(s).Done?
    ensures s == WriteChunks(text) + tag && ChunksOk('<', text, tag) && Peek(tag, 0) == '<' && |tag| <= |s|
    ensures ParseTag(tag).Done? && ParseContents(s) == Done(MeansText(text) + ParseTag(tag).value, ParseTag(tag).rest)
  {
    hide SkipSpace, ParseTag, Expand, WriteChunks, ChunksOk, MeansChunks;
    var gap := GapOnly(s);
    var t := SkipSpace(s);
    if Peek(t, 0) == '<' {
      text, tag := Spaces(gap), t;
      SpacesAre(gap, t);
      assert [] + ParseTag(t).value == ParseTag(t).value;
    } else {
      text := ChunksOnly(AtTag, s);
      tag := Expand(AtTag, s).rest;
      ExpandRest(AtTag, s);
      if SpaceText(WriteChunks(text)) { GapSkipped(WriteChunks(text), tag); }
    }
  }

  lemma {:induction false} ContentOnly(s: string) returns (c: Content)
    requires ParseContents(s).Done?
    ensures s == WriteContent(c) + ParseContents(s).rest && ContentOk(c, ParseContents(s).rest)
    ensures MeansContent(c) == ParseContents(s).value
    decreases |s|, 2
  {
    hide ParseContents, ParseTag, WriteChunks, ChunksOk, MeansText, WriteTag, TagOk, MeansTag;
    var text, tag := TextForm(s);
    var t := TagOnly(tag);
    c := Content(text, t);
    TagText(WriteChunks(text), WriteTag(t), ParseTag(tag).rest);
  }

  lemma CloseOnly(s: string) returns (t: Tag)
    requires Peek(s, 0) == '<' && Peek(s, 1) == '/' && ParseTag(s).Done?
    ensures s == "<" + (WriteTag(t) + ParseTag(s).rest) && TagOk(t, ParseTag(s).rest)
    ensures MeansTag(t) == [] == ParseTag(s).value
  {
    hide SkipSpace, SpanLen, ParseNode, ParseContents, SpaceText, NameText;
    var u := s[2..];
    var n := SpanLen(IsNameChar, u);
    SpanOnly(IsNameChar, u);
    NameExactly(u[..n]);
    var gap := GapOnly(u[n..]);
    var v := SkipSpace(u[n..]);
    t := Close(u[..n], gap);
    CloseText(s, u[..n], gap, v);
  }

  lemma CloseText(s: string, name: string, gap: string, v: string)
    requires |s| >= 2 && s[0] == '<' && s[1] == '/' && s[2..] == name + (gap + v) && v != "" && v[0] == '>'
    ensures s == "<" + ("/" + name + gap + ">" + v[1..])
  {
    assert v == ">" + v[1..] && s == "<" + ("/" + s[2..]);
  }

  lemma {:induction false} TagOnly(s: string) returns (t: Tag)
    requires Peek(s, 0) == '<' && ParseTag(s).Done?
    ensures s == "<" + (WriteTag(t) + ParseTag(s).rest) && TagOk(t, ParseTag(s).rest)
    ensures MeansTag(t) == ParseTag(s).value
    decreases |s|, 1
  {
    hide SkipSpace, SpanLen, ParseNode, ParseContents, WriteMarkup, MarkupOk, MeansMarkup, WriteContent, ContentOk,
         MeansContent;
    if Peek(s, 1) == '/' {
      t := CloseOnly(s);
    } else {
      var m := MarkupOnly(s[1..]);
      var more := ParseNode(s[1..]).rest;
      var c := ContentOnly(more);
      t := Child(m, c);
      var node, kids := MeansMarkup(m), MeansContent(c);
      if node == [] { assert node + kids == kids; } else { assert node + kids == [node[0]] + kids; }
      assert s == "<" + s[1..];
      assert WriteTag(t) + ParseContents(more).rest == WriteMarkup(m) + more;
    }
  }

  /** A text is read as an optional node exactly when it is a way of writing it. */
  lemma NodeExactly(s: string, node: Option<Node>, rest: string)
    ensures ParseNode(s) == Done(node, rest) <==>
            exists m :: s == WriteMarkup(m) + rest && MarkupOk(m, rest) && Only(MeansMarkup(m)) == node
  {
    hide ParseNode, WriteMarkup, MarkupOk, MeansMarkup;
    if ParseNode(s) == Done(node, rest) { var m := MarkupOnly(s); }
    forall m | s == WriteMarkup(m) + rest && MarkupOk(m, rest)
      ensures ParseNode(s) == Done(Only(MeansMarkup(m)), rest)
    {
      MarkupRead(m, rest);
    }
  }

  // ---- documents ----

  lemma ItemsCons(i: Item, more: seq<Item>, after: string)
    requires SpaceText(i.gap) && MarkupOk(i.markup, WriteItems(more) + after) && ItemsOk(more, after)
    ensures ItemsOk([i] + more, after) && MeansItems([i] + more) == MeansMarkup(i.markup) + MeansItems(more)
    ensures WriteItems([i] + more) + after == i.gap + ("<" + (WriteMarkup(i.markup) + (WriteItems(more) + after)))
  {
    hide MarkupOk, WriteMarkup, MeansMarkup, SpaceText;
    assert ([i] + more)[1..] == more;
    ItemText(i.gap, WriteMarkup(i.markup), WriteItems(more), after);
  }

  lemma {:induction false} TopOnly(s: string) returns (items: seq<Item>, gap: string)
    requires ParseTop(s).Done?
    ensures var r := ParseTop(s);
            && s == WriteItems(items) + (gap + r.rest) && ItemsOk(items, gap + r.rest) && SpaceText(gap)
            && MeansItems(items) == r.value && Peek(r.rest, 0) == NUL
    decreases |s|
  {
    hide ParseNode, SkipSpace, SpaceText, WriteMarkup, MarkupOk, MeansMarkup, WriteItems, ItemsOk, MeansItems;
    var g := GapOnly(s);
    var t := SkipSpace(s);
    if Peek(t, 0) == NUL {
      items, gap := [], g;
      NoItems(g + t);
    } else {
      var m := MarkupOnly(t[1..]);
      var child := ParseNode(t[1..]);
      var more;
      more, gap := TopOnly(child.rest);
      var node, kids := MeansMarkup(m), MeansItems(more);
      items := [Item(g, m)] + more;
      assert t == "<" + t[1..];
      if node == [] { assert node + kids == kids; } else { assert node + kids == [node[0]] + kids; }
      ItemsCons(Item(g, m), more, gap + ParseTop(child.rest).rest);
    }
  }

  lemma NoItems(after: string)
    ensures WriteItems([]) + after == after && ItemsOk([], after) && MeansItems([]) == []
  {}

  predicate Marked(s: string) {
    Peek(s, 0) as int == 0xEF && Peek(s, 1) as int == 0xBB && Peek(s, 2) as int == 0xBF
  }

  lemma MarkedText(s: string)
    requires Marked(s)
    ensures |s| >= 3 && s == MARK + s[3..]
  {
    assert Peek(s, 2) != NUL;
    assert s[..3] == MARK && s == s[..3] + s[3..];
  }

  lemma DocumentText(d: Document, after: string)
    ensures WriteDocument(d) + after == (if d.marked then MARK else "") + (WriteItems(d.items) + (d.gap + after))
  {
    hide WriteItems;
    assert WriteItems(d.items) + d.gap + after == WriteItems(d.items) + (d.gap + after);
    assert WriteDocument(d) + after == (if d.marked then MARK else "") + (WriteItems(d.items) + d.gap + after);
  }

  lemma DocumentOnly(s: string) returns (d: Document)
    requires ParseDocument(s).Done?
    ensures s == WriteDocument(d) + ParseDocument(s).rest && MeansItems(d.items) == ParseDocument(s).value
    ensures SpaceText(d.gap) && ItemsOk(d.items, d.gap + ParseDocument(s).rest)
    ensures Peek(ParseDocument(s).rest, 0) == NUL
  {
    hide ParseTop, WriteItems, ItemsOk, MeansItems, SpaceText, WriteDocument;
    if Marked(s) { MarkedText(s); }
    var t := if Marked(s) then s[3..] else s;
    assert ParseDocument(s) == ParseTop(t);
    var items, gap := TopOnly(t);
    d := Document(Marked(s), items, gap);
    DocumentText(d, ParseTop(t).rest);
    assert !Marked(s) ==> "" + t == s;
  }

  /** A text is read as a document exactly when it is a way of writing its nodes, with every choice of
      white space, quotes and references, and with declarations, instructions, comments and document
      types read over; every other text is an error. */
  lemma DocumentExactly(s: string, nodes: seq<Node>, rest: string)
    ensures ParseDocument(s) == Done(nodes, rest) <==>
            exists d :: s == WriteDocument(d) + rest && DocumentOk(d, rest) && MeansItems(d.items) == nodes
  {
    hide ParseDocument, WriteDocument, ItemsOk, MeansItems, SpaceText;
    if ParseDocument(s) == Done(nodes, rest) {
      var d := DocumentOnly(s);
      assert DocumentOk(d, rest);
    }
    forall d | s == WriteDocument(d) + rest && DocumentOk(d, rest)
      ensures ParseDocument(s) == Done(MeansItems(d.items), rest)
    {
      DocumentRead(d, rest);
    }
  }

  // ---- the value of an element ----

  /** Data that shows something as a C string. */
  predicate Visible(kids: seq<Node>, i: nat) { i < |kids| && kids[i].Data? && Peek(kids[i].value, 0) != NUL }

  /** An element's value is its first data that does not begin with a zero, if there is one. */
  lemma {:induction false} FirstVisible(kids: seq<Node>, value: string, i: nat)
    requires Peek(value, 0) == NUL && Visible(kids, i) && forall j: nat | j < i :: !Visible(kids, j)
    ensures ElementValue(kids, value) == kids[i].value
  {
    var v := if kids[0].Data? && Peek(value, 0) == NUL then kids[0].value else value;
    if i == 0 {
      KeptVisible(kids[1..], v);
    } else {
      assert !Visible(kids, 0);
      forall j: nat | j < i - 1 ensures !Visible(kids[1..], j) { assert !Visible(kids, j + 1); }
      assert Visible(kids[1..], i - 1);
      FirstVisible(kids[1..], v, i - 1);
    }
  }

  lemma {:induction false} KeptVisible(kids: seq<Node>, value: string)
    requires Peek(value, 0) != NUL
    ensures ElementValue(kids, value) == value
  {
    if kids != [] { KeptVisible(kids[1..], value); }
  }

  /** Otherwise it is its last data, or nothing. */
  lemma {:induction false} LastHidden(kids: seq<Node>, value: string)
    requires Peek(value, 0) == NUL && forall j: nat :: !Visible(kids, j)
    ensures (forall i | 0 <= i < |kids| :: !kids[i].Data?) ==> ElementValue(kids, value) == value
    ensures forall i | 0 <= i < |kids| && kids[i].Data? && (forall j | i < j < |kids| :: !kids[j].Data?) ::
              ElementValue(kids, value) == kids[i].value
  {
    if kids != [] {
      var rest := kids[1..];
      var v := if kids[0].Data? then kids[0].value else value;
      assert ElementValue(kids, value) == ElementValue(rest, v);
      hide ElementValue;
      assert !Visible(kids, 0);
      forall j: nat ensures !Visible(rest, j) { assert !Visible(kids, j + 1); }
      LastHidden(rest, v);
      assert forall j | 1 <= j < |kids| :: kids[j] == rest[j - 1];
    }
  }
}
