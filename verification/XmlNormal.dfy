/** When the tree that comes back is the tree that was printed. */
module XmlNormal {
  import opened Wrappers
  import opened XmlText
  import opened XmlTree
  import opened XmlRoundTrip
  import opened XmlBuilt

  /** No blank data, no adjacent data, and every element's value is its first data. */
  predicate Plain(n: Node)
    decreases n, 1
  {
    n.Element? ==> n.value == ElementValue(n.children, "") && Tight(n.children, false)
  }

  predicate Tight(kids: seq<Node>, afterData: bool)
    decreases kids, 0
  {
    kids != [] ==>
      if kids[0].Data?
      then !afterData && !Blank(kids[0].value) && Tight(kids[1..], true)
      else Plain(kids[0]) && Tight(kids[1..], false)
  }

  lemma {:induction false} NormalIsPlain(n: Node)
    ensures Plain(Normal(n))
    decreases n, 1
  {
    if n.Element? {
      NormalIsTight(n.children, if n.children == [] then n.value else "");
    }
  }

  lemma {:induction false} NormalIsTight(kids: seq<Node>, pending: string)
    ensures Tight(NormalKids(kids, pending), false)
    decreases kids, 0
  {
    if kids == [] {
    } else if kids[0].Data? {
      NormalIsTight(kids[1..], pending + kids[0].value);
    } else {
      hide Plain, Tight, Normal;
      NormalIsPlain(kids[0]);
      NormalIsTight(kids[1..], "");
      assert !Normal(kids[0]).Data? by { NotData(kids[0]); }
      LeadTight(pending, Normal(kids[0]), NormalKids(kids[1..], ""));
    }
  }

  lemma NotData(n: Node)
    requires !n.Data?
    ensures !Normal(n).Data?
  {}

  lemma LeadTight(pending: string, n: Node, tail: seq<Node>)
    requires !n.Data? && Plain(n) && Tight(tail, false)
    ensures Tight(Flush(pending) + [n] + tail, false)
  {
    hide Plain, Blank;
    var nodes := [n] + tail;
    assert nodes[1..] == tail;
    assert Tight(nodes, false) && Tight(nodes, true);
    if !Blank(pending) {
      var all := [Data(pending)] + nodes;
      assert all[1..] == nodes;
      assert Tight(all, false);
      assert Flush(pending) + [n] + tail == all;
    } else {
      assert Flush(pending) + [n] + tail == nodes;
    }
  }

  lemma {:induction false} PlainIsNormal(n: Node)
    requires Plain(n)
    ensures Normal(n) == n
    decreases n, 1
  {
    if n.Element? {
      TightIsNormal(n.children);
      if n.children == [] { assert n.value == ""; }
    }
  }

  lemma {:induction false} TightIsNormal(kids: seq<Node>)
    requires Tight(kids, false)
    ensures NormalKids(kids, "") == kids
    decreases kids, 0
  {
    if kids == [] {
    } else if kids[0].Data? {
      TightAfterData(kids[1..], kids[0].value);
      assert "" + kids[0].value == kids[0].value;
      assert kids == [kids[0]] + kids[1..];
    } else {
      PlainIsNormal(kids[0]);
      TightIsNormal(kids[1..]);
      assert kids == [kids[0]] + kids[1..];
    }
  }

  lemma {:induction false} TightAfterData(kids: seq<Node>, pending: string)
    requires Tight(kids, true) && !Blank(pending)
    ensures NormalKids(kids, pending) == [Data(pending)] + kids
    decreases kids, 0
  {
    if kids != [] {
      PlainIsNormal(kids[0]);
      TightIsNormal(kids[1..]);
      assert kids == [kids[0]] + kids[1..];
    }
  }

  /** A node that comes back from its print was printed without a zero and built by the parser. */
  lemma ComesBackBuilt(n: Node, rest: string)
    requires Print(n) != [] && Print(n)[0] == '<' && ParseNode(Print(n)[1..] + rest) == Done(Some(n), rest)
    ensures NulFree(Print(n)) && Built(n)
  {
    hide ParseNode, Print, Built;
    NodeBuilt(Print(n)[1..] + rest);
    FrontRead(Print(n), rest);
  }

  lemma FrontRead(text: string, rest: string)
    requires text != [] && text[0] != NUL && Read(text[1..] + rest, rest)
    ensures NulFree(text)
  {
    assert (text[1..] + rest)[..|text| - 1] == text[1..];
    assert text == [text[0]] + text[1..];
  }

  lemma PrintsTag(n: Node)
    requires !n.Data?
    ensures Print(n) != [] && Print(n)[0] == '<'
  {}

  /** Parsing the un-indented print of a printable element or CDATA section gives back its normal
      form. Of all elements and CDATA sections, exactly those come back as they were that are
      printable and plain. */
  lemma RoundTrip(n: Node, rest: string)
    requires !n.Data?
    ensures Print(n) != []
    ensures Printable(n) ==> ParseNode(Print(n)[1..] + rest) == Done(Some(Normal(n)), rest)
    ensures ParseNode(Print(n)[1..] + rest) == Done(Some(n), rest) <==> Printable(n) && Plain(n)
  {
    PrintsTag(n);
    hide Print, ParseNode, Printable, Plain, Built, NulFree;
    if Printable(n) {
      NodeParses(n, rest);
      NormalIsPlain(n);
      if Plain(n) { PlainIsNormal(n); }
    }
    if ParseNode(Print(n)[1..] + rest) == Done(Some(n), rest) {
      ComesBackBuilt(n, rest);
      BuiltPrintable(n);
    }
  }

  /** Of the trees the parser builds, exactly those come back whose print holds no zero and that
      are plain. */
  lemma ParsedComesBack(s: string, n: Node, rest: string, rest': string)
    requires ParseNode(s) == Done(Some(n), rest)
    ensures Print(n) != []
    ensures ParseNode(Print(n)[1..] + rest') == Done(Some(n), rest') <==> NulFree(Print(n)) && Plain(n)
  {
    NeverData(s);
    NodeBuilt(s);
    PrintsTag(n);
    hide ParseNode, Print, Printable, Built, Plain, NulFree;
    RoundTrip(n, rest');
    if NulFree(Print(n)) { BuiltPrintable(n); }
    if ParseNode(Print(n)[1..] + rest') == Done(Some(n), rest') { ComesBackBuilt(n, rest'); }
  }

  // ---- documents ----

  /** Blank data between the top-level nodes is read over, other data is not admitted. */
  function TopNormal(nodes: seq<Node>): seq<Node> {
    if nodes == [] then []
    else (if nodes[0].Data? then [] else [Normal(nodes[0])]) + TopNormal(nodes[1..])
  }

  predicate TopAdmitted(nodes: seq<Node>) {
    forall i | 0 <= i < |nodes| && nodes[i].Data? :: Blank(nodes[i].value)
  }

  lemma {:induction false} SkipBlankFront(a: string, rest: string)
    requires Blank(a)
    ensures SkipSpace(a + rest) == SkipSpace(rest)
  {
    if a == [] {
      assert a + rest == rest;
    } else {
      hide SkipSpace;
      assert a + rest == [a[0]] + (a[1..] + rest);
      SkipOne(a[0], a[1..] + rest);
      assert Blank(a[1..]);
      SkipBlankFront(a[1..], rest);
    }
  }

  lemma TopChild(s: string, n: Node, more: string)
    requires s != [] && s[0] == '<' && ParseNode(s[1..]) == Done(Some(n), more)
    ensures ParseTop(s) == Following(n, ParseTop(more))
  {
    hide ParseNode;
    NothingToSkip(s);
  }

  lemma {:induction false} TopParses(nodes: seq<Node>, rest: string)
    requires AllPrintable(nodes) && Peek(rest, 0) == NUL
    ensures ParseTop(PrintAll(nodes) + rest) ==
            if TopAdmitted(nodes) then Done(TopNormal(nodes), rest) else Fail("expected <")
    decreases |nodes|
  {
    hide ParseTop, ParseNode, Print, PrintAll, Escape, Normal, Printable, TopAdmitted;
    if nodes == [] {
      NothingPrinted(nodes, rest);
      TopAtEnd(rest);
    } else {
      var n, more := nodes[0], PrintAll(nodes[1..]) + rest;
      TopFront(nodes, rest);
      TopParses(nodes[1..], rest);
      if !n.Data? {
        NodeParses(n, more);
        DropFront(Print(n), more);
        TopChild(Print(n) + more, Normal(n), more);
      } else {
        DataPrints(n);
        TopData(n.value, more);
        assert [] + TopNormal(nodes[1..]) == TopNormal(nodes[1..]);
      }
    }
  }

  lemma TopAtEnd(rest: string)
    requires Peek(rest, 0) == NUL
    ensures ParseTop(rest) == Done([], rest)
  {
    hide SkipSpace, ParseNode;
    NothingToSkip(rest);
  }

  lemma NothingPrinted(nodes: seq<Node>, rest: string)
    requires nodes == []
    ensures PrintAll(nodes) + rest == rest && TopAdmitted(nodes)
  {}

  lemma TopFront(nodes: seq<Node>, rest: string)
    requires nodes != []
    ensures PrintAll(nodes) + rest == Print(nodes[0]) + (PrintAll(nodes[1..]) + rest)
    ensures TopAdmitted(nodes) <==> (nodes[0].Data? ==> Blank(nodes[0].value)) && TopAdmitted(nodes[1..])
  {
    hide Print, Blank;
    assert nodes == [nodes[0]] + nodes[1..];
  }

  lemma TopData(value: string, more: string)
    requires NulFree(value)
    ensures ParseTop(Escape(value, NUL) + more) == if Blank(value) then ParseTop(more) else Fail("expected <")
  {
    if Blank(value) {
      BlankUnescaped(value);
      SkipBlankFront(value, more);
    } else {
      DataBegins(value, more);
    }
  }

  /** A printed document that starts with a tag, with blanks or at its end has no byte order mark. */
  lemma NoMark(nodes: seq<Node>, rest: string)
    requires TopAdmitted(nodes) && Peek(rest, 0) == NUL
    ensures ParseDocument(PrintAll(nodes) + rest) == ParseTop(PrintAll(nodes) + rest)
  {
    hide ParseTop;
    StartsPlain(nodes, rest);
  }

  lemma {:induction false} StartsPlain(nodes: seq<Node>, rest: string)
    requires TopAdmitted(nodes) && Peek(rest, 0) == NUL
    ensures Peek(PrintAll(nodes) + rest, 0) as int != 0xEF
  {
    if nodes == [] {
      assert PrintAll(nodes) + rest == rest;
    } else {
      hide Print, Escape;
      TopFront(nodes, rest);
      StartsPlain(nodes[1..], rest);
      var n, more := nodes[0], PrintAll(nodes[1..]) + rest;
      if n.Data? {
        DataPrints(n);
        BlankUnescaped(n.value);
        assert Print(n) + more == n.value + more;
        if n.value == [] { assert n.value + more == more; } else { assert IsSpace(n.value[0]); }
      } else {
        PrintsTag(n);
      }
    }
  }

  /** What a document must be to come back as it was: elements and CDATA sections, each plain. */
  predicate TopPlain(nodes: seq<Node>) { forall i | 0 <= i < |nodes| :: !nodes[i].Data? && Plain(nodes[i]) }

  lemma {:induction false} TopPlainExactly(nodes: seq<Node>)
    ensures TopNormal(nodes) == nodes <==> TopPlain(nodes)
  {
    if nodes != [] {
      hide Plain, Normal;
      var n, more := nodes[0], nodes[1..];
      TopPlainExactly(more);
      TopShorter(more);
      assert nodes == [n] + more;
      assert TopPlain(nodes) <==> !n.Data? && Plain(n) && TopPlain(more);
      if !n.Data? {
        NormalIsPlain(n);
        if Plain(n) { PlainIsNormal(n); }
        assert ([Normal(n)] + TopNormal(more))[1..] == TopNormal(more);
      } else {
        assert [] + TopNormal(more) == TopNormal(more);
      }
    }
  }

  lemma {:induction false} TopShorter(nodes: seq<Node>)
    ensures |TopNormal(nodes)| <= |nodes|
  {
    if nodes != [] { TopShorter(nodes[1..]); }
  }

  /** A printed document, zero-terminated or not, parses to the normal forms of its nodes. Of all
      documents exactly those come back as they were that hold printable, plain elements and CDATA
      sections, and are followed by the end of the text. */
  lemma DocumentRoundTrip(nodes: seq<Node>, rest: string)
    ensures AllPrintable(nodes) && TopAdmitted(nodes) && Peek(rest, 0) == NUL ==>
              ParseDocument(PrintAll(nodes) + rest) == Done(TopNormal(nodes), rest)
    ensures ParseDocument(PrintAll(nodes) + rest) == Done(nodes, rest) <==>
            AllPrintable(nodes) && TopPlain(nodes) && Peek(rest, 0) == NUL
  {
    hide ParseDocument, PrintAll, AllPrintable, TopAdmitted, TopPlain, ParseTop;
    if AllPrintable(nodes) && TopAdmitted(nodes) && Peek(rest, 0) == NUL {
      TopParses(nodes, rest);
      NoMark(nodes, rest);
      TopPlainExactly(nodes);
    }
    PlainAdmitted(nodes);
    if ParseDocument(PrintAll(nodes) + rest) == Done(nodes, rest) { DocumentComesBack(nodes, rest); }
  }

  lemma PlainAdmitted(nodes: seq<Node>)
    ensures (forall i | 0 <= i < |nodes| :: !nodes[i].Data?) ==> TopAdmitted(nodes)
    ensures TopPlain(nodes) ==> TopAdmitted(nodes)
  {
    hide Plain, Blank;
  }

  lemma DocumentComesBack(nodes: seq<Node>, rest: string)
    requires ParseDocument(PrintAll(nodes) + rest) == Done(nodes, rest)
    ensures AllPrintable(nodes) && TopAdmitted(nodes) && Peek(rest, 0) == NUL
  {
    hide ParseDocument, PrintAll, AllPrintable, AllBuilt;
    var text := PrintAll(nodes);
    DocumentBuilt(text + rest);
    assert (text + rest)[..|text|] == text;
    KidsPrintable(nodes);
  }

  /** A reference of two digits or one, to the character with that code. */
  lemma ReferenceTo(digits: string, code: nat, tail: string)
    requires (digits == "32" && code == 32) || (digits == "0" && code == 0)
    ensures RefAt("&#" + digits + ";" + tail) == Known([code as char], |digits| + 3)
  {
    var s := "&#" + digits + ";" + tail;
    var d, after := s[2..], ";" + tail;
    assert s[0] == '&' && s[1] == '#' && d == digits + after && s[|digits| + 2] == ';';
    assert DigitCount(after) == 0 && CodeOf(after, 10, code) == code;
    if digits == "32" {
      assert d[1..] == "2" + after && d[1..][1..] == after;
      assert DigitCount(d[1..]) == 1 && CodeOf(d[1..], 10, 3) == 32;
    } else {
      assert d[1..] == after;
    }
    assert DigitCount(d) == |digits| && CodeOf(d, 10, 0) == code;
  }

  lemma ContentsOfReference(s: string, text: string, len: nat, tag: string, kids: seq<Node>, rest: string)
    requires s != [] && s[0] == '&' && len <= |s| && RefAt(s) == Known(text, len) && s[len..] == tag
    requires tag != [] && tag[0] == '<' && ParseTag(tag) == Done(kids, rest)
    ensures ParseContents(s) == Done([Data(text)] + kids, rest)
  {
    hide RefAt, ParseTag, SkipSpace;
    StopsAtTag(tag);
    assert text + "" == text;
    NothingToSkip(s);
  }

  /** What the parser makes of an element whose contents are one reference. */
  lemma ReferenceElement(name: string, digits: string, code: nat, rest: string)
    requires NamePrintable(name) && ((digits == "32" && code == 32) || (digits == "0" && code == 0))
    ensures var text := [code as char];
            ParseNode(name + ">&#" + digits + ";</" + name + ">" + rest)
              == Done(Some(Element(name, [], text, [Data(text)])), rest)
  {
    hide ParseNode, ParseElement, ParseContents, ParseTag, RefAt, PrintAttrs, ElementValue;
    var text, close := [code as char], "</" + name + ">" + rest;
    var body := "&#" + digits + ";" + close;
    ClosingTag(name, rest);
    ReferenceTo(digits, code, close);
    BodyParts(digits, close);
    ContentsOfReference(body, text, |digits| + 3, close, [], rest);
    assert [Data(text)] + [] == [Data(text)];
    FullElementParses(name, [], body, [Data(text)], rest);
    SoleDataElement(name, text, body);
    ReferenceText(name, digits, rest);
    ElementIsNode(name + (">" + body), Element(name, [], text, [Data(text)]), rest);
  }

  lemma BodyParts(digits: string, close: string)
    ensures var body := "&#" + digits + ";" + close;
            body[0] == '&' && |digits| + 3 <= |body| && body[|digits| + 3..] == close
  {}

  lemma ReferenceText(name: string, digits: string, rest: string)
    requires name != []
    ensures var s := name + (">" + ("&#" + digits + ";" + ("</" + name + ">" + rest)));
            s == name + ">&#" + digits + ";</" + name + ">" + rest && s[0] == name[0]
  {
    assert ">" + ("&#" + digits + ";" + ("</" + name + ">" + rest)) == ">&#" + digits + ";</" + name + ">" + rest;
  }

  lemma SoleDataElement(name: string, text: string, body: string)
    ensures ElementValue([Data(text)], "") == text
    ensures name + (PrintAttrs([]) + (">" + body)) == name + (">" + body)
  {
    assert [Data(text)][1..] == [];
    assert PrintAttrs([]) + (">" + body) == ">" + body;
  }

  /** The parser itself builds trees that do not come back. A reference to a blank survives
      expansion as blank data, which printing and parsing again loses. */
  lemma ReferenceToBlank(name: string, rest: string)
    requires NamePrintable(name)
    ensures var n := Element(name, [], " ", [Data(" ")]);
            && ParseNode(name + ">&#32;</" + name + ">" + rest) == Done(Some(n), rest)
            && Printable(n) && Normal(n) == Element(name, [], "", []) && !Plain(n)
  {
    ReferenceElement(name, "32", 32, rest);
    assert name + ">&#" + "32" + ";</" == name + ">&#32;</";
    hide ParseNode, NamePrintable;
    BlankElement(name);
  }

  lemma BlankElement(name: string)
    requires NamePrintable(name)
    ensures var n := Element(name, [], " ", [Data(" ")]);
            Printable(n) && Normal(n) == Element(name, [], "", []) && !Plain(n)
  {
    hide NamePrintable;
    var kids := [Data(" ")];
    assert kids[0].Data? && Blank(" ") && "" + " " == " " && kids[1..] == [];
  }

  /** A reference to the zero character gives a plain tree whose print ends too early. */
  lemma ReferenceToNul(name: string, rest: string)
    requires NamePrintable(name)
    ensures var n := Element(name, [], [NUL], [Data([NUL])]);
            && ParseNode(name + ">&#0;</" + name + ">" + rest) == Done(Some(n), rest)
            && Plain(n) && !Printable(n) && Print(n) != []
            && ParseNode(Print(n)[1..] + rest) != Done(Some(n), rest)
  {
    var n := Element(name, [], [NUL], [Data([NUL])]);
    ReferenceElement(name, "0", 0, rest);
    assert name + ">&#" + "0" + ";</" == name + ">&#0;</";
    hide ParseNode, NamePrintable, Print;
    RoundTrip(n, rest);
    NulElement(name);
  }

  lemma NulElement(name: string)
    ensures var n := Element(name, [], [NUL], [Data([NUL])]); Plain(n) && !Printable(n)
  {
    var kids := [Data([NUL])];
    assert kids[0].Data? && kids[1..] == [] && !IsSpace([NUL][0]);
  }
}
