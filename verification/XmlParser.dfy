/** The recursive part of the in-place parser: elements, their contents, and documents. */
module XmlParser {
  import opened Wrappers
  import opened XmlText
  import opened XmlTree
  import opened XmlExpand
  import opened XmlInPlace

  // ---- reading over ----

  lemma AfterStep(s0: string, pattern: string, done: string, s: string)
    requires pattern != [] && s != [] && s[0] != NUL && !(pattern <= s)
    requires After(s0, pattern) == Prepend(done, After(s, pattern))
    ensures After(s0, pattern) == Prepend(done + [s[0]], After(s[1..], pattern))
  {
    PrependTwice(done, [s[0]], After(s[1..], pattern));
  }

  lemma AfterHere(s0: string, pattern: string, done: string, s: string)
    requires pattern != [] && pattern <= s
    requires After(s0, pattern) == Prepend(done, After(s, pattern))
    ensures After(s0, pattern) == Done(done, s[|pattern|..])
  {
    assert done + s[..0] == done;
  }

  lemma AfterStarts(s: string, pattern: string)
    requires pattern != []
    ensures After(s, pattern) == Prepend("", After(s, pattern))
  {
    if After(s, pattern).Done? { assert "" + After(s, pattern).value == After(s, pattern).value; }
  }

  predicate Matches(b: string, i: nat, pattern: string) {
    i + |pattern| <= |b| && b[i..i + |pattern|] == pattern
  }

  lemma MatchIsPrefix(b: string, i: nat, pattern: string)
    requires i <= |b|
    ensures Matches(b, i, pattern) <==> pattern <= b[i..]
  {
    if i + |pattern| <= |b| { assert b[i..][..|pattern|] == b[i..i + |pattern|]; }
  }

  /** The position of the first occurrence of `pattern`. */
  method Seek(buf: array<char>, pattern: string, start: nat) returns (r: Result<nat, string>)
    requires Terminated(buf) && start < buf.Length && pattern != [] && NUL !in pattern
    ensures r.Err? ==> After(buf[start..], pattern) == Fail(r.error)
    ensures r.Ok? ==> start <= r.value && r.value + |pattern| < buf.Length
                      && After(buf[start..], pattern) == Done(buf[start..r.value], buf[r.value + |pattern|..])
  {
    hide After, Prepend;
    var text := start;
    AfterStarts(buf[start..], pattern);
    assert buf[start..start] == "";
    while !Matches(buf[..], text, pattern)
      invariant start <= text < buf.Length
      invariant After(buf[start..], pattern) == Prepend(buf[start..text], After(buf[text..], pattern))
      decreases buf.Length - text
    {
      MatchIsPrefix(buf[..], text, pattern);
      assert buf[..][text..] == buf[text..] && buf[text..][0] == buf[text];
      if buf[text] == NUL {
        AfterMissing(buf[start..], pattern, buf[start..text], buf[text..]);
        return Err("unexpected end of data");
      }
      AfterStep(buf[start..], pattern, buf[start..text], buf[text..]);
      assert buf[start..text] + [buf[text]] == buf[start..text + 1] && buf[text..][1..] == buf[text + 1..];
      text := text + 1;
    }
    MatchIsPrefix(buf[..], text, pattern);
    assert buf[..][text..] == buf[text..];
    AfterHere(buf[start..], pattern, buf[start..text], buf[text..]);
    assert buf[text..][|pattern|..] == buf[text + |pattern|..];
    assert buf[text + |pattern| - 1] == pattern[|pattern| - 1];
    return Ok(text);
  }

  lemma AfterMissing(s0: string, pattern: string, done: string, s: string)
    requires pattern != [] && s != [] && s[0] == NUL && !(pattern <= s)
    requires After(s0, pattern) == Prepend(done, After(s, pattern))
    ensures After(s0, pattern) == Fail("unexpected end of data")
  {}

  /** One character of a document type. */
  lemma DoctypeStep(s: string, depth: nat)
    requires s != [] && s[0] != NUL && !(depth == 0 && s[0] == '>')
    ensures AfterDoctype(s, depth) ==
            AfterDoctype(s[1..], if s[0] == '[' then depth + 1
                                 else if s[0] == ']' && depth > 0 then depth - 1 else depth)
  {}

  lemma DoctypeEnds(s: string, depth: nat)
    requires s != []
    ensures s[0] == NUL ==> AfterDoctype(s, depth) == Fail("unexpected end of data")
    ensures depth == 0 && s[0] == '>' ==> AfterDoctype(s, depth) == Done((), s[1..])
  {}

  /** Past the bracket that closes the one before `start`. */
  method SkipBrackets(buf: array<char>, start: nat) returns (r: Result<nat, string>)
    requires Terminated(buf) && start < buf.Length
    ensures r.Err? ==> AfterDoctype(buf[start..], 1) == Fail(r.error)
    ensures r.Ok? ==> start < r.value < buf.Length && AfterDoctype(buf[start..], 1) == AfterDoctype(buf[r.value..], 0)
  {
    hide AfterDoctype;
    var text, depth := start, 1;
    while depth > 0
      invariant start <= text < buf.Length && depth >= 0 && (depth == 0 ==> start < text)
      invariant AfterDoctype(buf[start..], 1) == AfterDoctype(buf[text..], depth)
      decreases buf.Length - text
    {
      assert buf[text..][0] == buf[text] && buf[text..][1..] == buf[text + 1..];
      if buf[text] == NUL {
        DoctypeEnds(buf[text..], depth);
        return Err("unexpected end of data");
      }
      DoctypeStep(buf[text..], depth);
      match buf[text] {
        case '[' => depth := depth + 1;
        case ']' => depth := depth - 1;
        case _ =>
      }
      text := text + 1;
    }
    return Ok(text);
  }

  method SkipDoctype(buf: array<char>, start: nat) returns (r: Result<nat, string>)
    requires Terminated(buf) && start < buf.Length
    ensures r.Err? ==> AfterDoctype(buf[start..], 0) == Fail(r.error)
    ensures r.Ok? ==> start < r.value < buf.Length && AfterDoctype(buf[start..], 0) == Done((), buf[r.value..])
  {
    hide AfterDoctype;
    var text := start;
    while buf[text] != '>'
      invariant start <= text < buf.Length
      invariant AfterDoctype(buf[start..], 0) == AfterDoctype(buf[text..], 0)
      decreases buf.Length - text
    {
      assert buf[text..][0] == buf[text] && buf[text..][1..] == buf[text + 1..];
      if buf[text] == NUL {
        DoctypeEnds(buf[text..], 0);
        return Err("unexpected end of data");
      }
      DoctypeStep(buf[text..], 0);
      if buf[text] == '[' {
        var inside := SkipBrackets(buf, text + 1);
        if inside.Err? {
          return inside;
        }
        text := inside.value;
      } else {
        text := text + 1;
      }
    }
    assert buf[text..][0] == buf[text] && buf[text..][1..] == buf[text + 1..];
    DoctypeEnds(buf[text..], 0);
    return Ok(text + 1);
  }

  // ---- data ----

  /** parse_and_append_data, up to the appending. The zero may land on the '<' that ends the
      data, so that character is handed back; reading goes on behind it. */
  method ParseData(buf: array<char>, start: nat) returns (r: Result<(Slice, nat, char), string>)
    requires Terminated(buf) && start < buf.Length
    modifies buf
    ensures r.Err? ==> Expand(AtTag, old(buf[start..])) == Fail(r.error)
    ensures r.Ok? ==>
              var (slice, text, ch) := r.value;
              var e := Expand(AtTag, old(buf[start..]));
              && start <= text < buf.Length && Terminated(buf) && Kept(old(buf[..]), buf[..], start, text + 1)
              && e.Done? && e.rest == [ch] + buf[text + 1..] && (ch == NUL || (ch == '<' && text + 1 < buf.Length))
              && ShowsText(buf[..], slice, e.value) && TextIn(slice, start, text + 1)
  {
    hide Expand;
    ghost var orig := buf[..];
    var e := SkipAndExpand(buf, AtTag, start);
    if e.Err? {
      return Err(e.error);
    }
    var (end, text) := e.value;
    ghost var value, rest := buf[start..end], buf[text..];
    ExpandRest(AtTag, orig[start..]);
    assert orig[start..] == old(buf[start..]);
    var ch := buf[text];
    assert rest == [ch] + buf[text + 1..];
    assert buf[buf.Length - 1] == orig[buf.Length - 1];
    buf[end] := NUL;
    assert buf[start..end] == value && rest == [ch] + buf[text + 1..];
    return Ok((Slice(start, end - start), text, ch));
  }

  // ---- contents ----

  lemma LedBy(s0: string, done: seq<Node>, r: Parsed<seq<Node>>, n: Node, r': Parsed<seq<Node>>)
    requires ParseContents(s0) == Led(done, r) && r == Following(n, r')
    ensures ParseContents(s0) == Led(done + [n], r')
  {
    hide ParseContents;
    if r'.Done? { assert done + ([n] + r'.value) == (done + [n]) + r'.value; }
  }

  lemma ContentsTag(s: string)
    requires Peek(SkipSpace(s), 0) == '<'
    ensures ParseContents(s) == ParseTag(SkipSpace(s))
  {
    hide ParseTag, SkipSpace;
  }

  lemma ContentsEnd(s: string)
    requires Peek(SkipSpace(s), 0) == NUL
    ensures ParseContents(s) == Fail("unexpected end of data")
  {
    hide SkipSpace;
  }

  lemma ContentsData(s: string)
    requires Peek(SkipSpace(s), 0) != NUL && Peek(SkipSpace(s), 0) != '<'
    ensures Expand(AtTag, s).Fail? ==> ParseContents(s) == Fail(Expand(AtTag, s).what)
    ensures Expand(AtTag, s).Done? ==>
              var e := Expand(AtTag, s);
              if Peek(e.rest, 0) == NUL then ParseContents(s) == Fail("unexpected end of data")
              else Peek(e.rest, 0) == '<' && ParseContents(s) == Following(Data(e.value), ParseTag(e.rest))
  {
    hide ParseTag, SkipSpace, Expand;
    if Expand(AtTag, s).Done? { ExpandRest(AtTag, s); }
  }

  lemma {:induction false} ElementValueSnoc(done: seq<Node>, n: Node, v: string)
    ensures ElementValue(done + [n], v) ==
            var w := ElementValue(done, v); if n.Data? && Peek(w, 0) == NUL then n.value else w
  {
    if done == [] {
      assert done + [n] == [n] && [n][1..] == [];
    } else {
      assert (done + [n])[1..] == done[1..] + [n];
      ElementValueSnoc(done[1..], n, if done[0].Data? && Peek(v, 0) == NUL then done[0].value else v);
    }
  }

  /** Everything the parser knows about the children read so far. */
  predicate SoFar(b: string, raws: seq<RawNode>, value: Option<Slice>, done: seq<Node>, lo: nat, hi: nat) {
    && ShowsAll(b, raws, done) && NodesIn(raws, lo, hi)
    && ShowsValue(b, value, ElementValue(done, "")) && ValueIn(value, lo, hi)
  }

  lemma SoFarStays(b: string, b': string, raws: seq<RawNode>, value: Option<Slice>, done: seq<Node>, lo: nat,
          mid: nat, hi: nat)
    requires SoFar(b, raws, value, done, lo, mid) && Kept(b, b', mid, hi) && mid <= hi
    ensures SoFar(b', raws, value, done, lo, hi)
  {
    hide ShowsAll, NodesIn, ShowsValue, Kept, ElementValue;
    KeptSame(b, b', lo, mid, hi);
    NodesStay(b, b', raws, done, lo, mid);
    ValueStays(b, b', value, ElementValue(done, ""), lo, mid);
    NodesWider(raws, lo, mid, lo, hi);
  }

  lemma SoFarAppend(b: string, raws: seq<RawNode>, value: Option<Slice>, done: seq<Node>, raw: RawNode, n: Node,
          lo: nat, mid: nat, hi: nat)
    requires SoFar(b, raws, value, done, lo, hi) && Shows(b, raw, n) && NodeIn(raw, mid, hi) && lo <= mid && !n.Data?
    ensures SoFar(b, raws + [raw], value, done + [n], lo, hi)
  {
    hide Shows, NodeIn, ElementValue, ShowsValue;
    ElementValueSnoc(done, n, "");
    NodeWider(raw, mid, hi, lo, hi);
  }

  /** The first character of the value read so far, as the parser finds it in the buffer. */
  lemma ValueFront(b: string, value: Option<Slice>, v: string)
    requires ShowsValue(b, value, v)
    ensures value.Some? ==> value.value.at < |b| && (b[value.value.at] == NUL <==> Peek(v, 0) == NUL)
    ensures value.None? ==> Peek(v, 0) == NUL
  {
    if value.Some? && v != "" { assert v[0] == b[value.value.at]; }
  }

  lemma SoFarData(b: string, raws: seq<RawNode>, value: Option<Slice>, done: seq<Node>, data: Slice, v: string,
          lo: nat, hi: nat)
    requires SoFar(b, raws, value, done, lo, hi) && ShowsText(b, data, v) && TextIn(data, lo, hi)
    ensures var value' := if value.Some? && value.value.at < |b| && b[value.value.at] != NUL then value else Some(data);
            SoFar(b, raws + [RawData(data)], value', done + [Data(v)], lo, hi)
  {
    hide ShowsText, TextIn, ElementValue;
    ElementValueSnoc(done, Data(v), "");
    ValueFront(b, value, ElementValue(done, ""));
    assert Shows(b, RawData(data), Data(v)) && NodeIn(RawData(data), lo, hi);
  }

  // ---- elements ----

  lemma ClosingCases(tag: string, rest: string)
    requires tag != [] && tag[0] == '<' && tag[1..] == ['/'] + rest
    ensures var t := SkipSpace(rest[SpanLen(IsNameChar, rest)..]);
            ParseTag(tag) == if Peek(t, 0) != '>' then Fail("expected >") else Done([], t[1..])
  {
    assert tag[1] == tag[1..][0] == '/';
    assert tag[2..] == tag[1..][1..] == rest;
    hide SpanLen, SkipSpace;
  }

  method CloseTag(buf: array<char>, text: nat, ghost tag: string) returns (r: Result<nat, string>)
    requires Terminated(buf) && text + 1 < buf.Length && buf[text + 1] == '/'
    requires tag != [] && tag[0] == '<' && tag[1..] == buf[text + 1..]
    ensures r.Err? ==> ParseTag(tag) == Fail(r.error)
    ensures r.Ok? ==> text < r.value < buf.Length && ParseTag(tag) == Done([], buf[r.value..])
  {
    hide SpanLen, SkipSpace, ParseTag;
    ghost var rest := buf[text + 2..];
    assert tag[1..] == ['/'] + rest;
    ClosingCases(tag, rest);
    var end := Skip(buf, IsNameChar, text + 2);
    end := SkipBlanks(buf, end);
    assert buf[end..][0] == buf[end] && buf[end..][1..] == buf[end + 1..];
    if buf[end] != '>' {
      return Err("expected >");
    }
    return Ok(end + 1);
  }

  lemma TagChild(tag: string, rest: string)
    requires tag != [] && tag[0] == '<' && tag[1..] == rest && Peek(rest, 0) != '/'
    ensures var c := ParseNode(rest);
            ParseTag(tag) == if c.Fail? then Fail(c.what)
                             else if c.value.None? then ParseContents(c.rest)
                             else Following(c.value.value, ParseContents(c.rest))
  {
    hide ParseNode, ParseContents;
    assert Peek(tag, 1) == Peek(tag[1..], 0);
  }

  lemma NothingYet(b: string, lo: nat, hi: nat, s: string)
    ensures SoFar(b, [], None, [], lo, hi)
    ensures ParseContents(s) == Led([], ParseContents(s))
  {
    hide ParseContents;
    if ParseContents(s).Done? { assert [] + ParseContents(s).value == ParseContents(s).value; }
  }

  lemma LedFail(s0: string, done: seq<Node>, r: Parsed<seq<Node>>)
    requires ParseContents(s0) == Led(done, r) && r.Fail?
    ensures ParseContents(s0) == Fail(r.what)
  {
    hide ParseContents;
  }

  lemma LedClosed(s0: string, done: seq<Node>, rest: string)
    requires ParseContents(s0) == Led(done, Done([], rest))
    ensures ParseContents(s0) == Done(done, rest)
  {
    hide ParseContents;
    assert done + [] == done;
  }

  /** parse_and_append_data. */
  method AppendData(buf: array<char>, from: nat, start: nat, raws: seq<RawNode>, value: Option<Slice>,
          ghost done: seq<Node>)
    returns (r: Result<(seq<RawNode>, Option<Slice>, nat, char), string>)
    requires Terminated(buf) && start <= from < buf.Length && SoFar(buf[..], raws, value, done, start, from)
    modifies buf
    ensures r.Err? ==> Expand(AtTag, old(buf[from..])) == Fail(r.error)
    ensures r.Ok? ==>
              var (raws', value', text, ch) := r.value;
              var e := Expand(AtTag, old(buf[from..]));
              && from <= text < buf.Length && Terminated(buf) && Kept(old(buf[..]), buf[..], from, text + 1)
              && e.Done? && e.rest == [ch] + buf[text + 1..] && (ch == NUL || (ch == '<' && text + 1 < buf.Length))
              && SoFar(buf[..], raws', value', done + [Data(e.value)], start, text + 1)
  {
    hide Expand, SoFar, ShowsText, ShowsAll, NodesIn;
    ghost var before := buf[..];
    var d := ParseData(buf, from);
    if d.Err? {
      return Err(d.error);
    }
    var (data, text, ch) := d.value;
    ghost var v := Expand(AtTag, old(buf[from..])).value;
    SoFarStays(before, buf[..], raws, value, done, start, from, text + 1);
    SoFarData(buf[..], raws, value, done, data, v, start, text + 1);
    ValueInside(buf[..], raws, value, done, start, text + 1);
    var value' := if value.Some? && buf[value.value.at] != NUL then value else Some(data);
    return Ok((raws + [RawData(data)], value', text, ch));
  }

  lemma ValueInside(b: string, raws: seq<RawNode>, value: Option<Slice>, done: seq<Node>, lo: nat, hi: nat)
    requires SoFar(b, raws, value, done, lo, hi)
    ensures value.Some? ==> value.value.at < |b|
  {}

  /** The head of the loop of parse_node_contents: blanks and data, up to the next '<'. After
      data, the source goes back to its switch with the character that ended the data. */
  method NextTag(buf: array<char>, from: nat, start: nat, raws: seq<RawNode>, value: Option<Slice>,
          ghost s0: string, ghost done: seq<Node>)
    returns (r: Result<(seq<RawNode>, Option<Slice>, nat), string>, ghost tag: string, ghost done': seq<Node>)
    requires Terminated(buf) && start <= from < buf.Length && SoFar(buf[..], raws, value, done, start, from)
    requires ParseContents(s0) == Led(done, ParseContents(buf[from..]))
    modifies buf
    ensures r.Err? ==> ParseContents(s0) == Fail(r.error)
    ensures r.Ok? ==>
              var (raws', value', text) := r.value;
              && from <= text < buf.Length - 1 && Terminated(buf) && Kept(old(buf[..]), buf[..], from, text + 1)
              && tag != [] && tag[0] == '<' && tag[1..] == buf[text + 1..]
              && ParseContents(s0) == Led(done', ParseTag(tag))
              && SoFar(buf[..], raws', value', done', start, text + 1)
  {
    hide ParseContents, ParseTag, Expand, SkipSpace, SoFar;
    ghost var s := buf[from..];
    var text := SkipBlanks(buf, from);
    tag, done' := buf[text..], done;
    assert tag[0] == buf[text];
    if buf[text] == '<' {
      ContentsTag(s);
      SoFarStays(buf[..], buf[..], raws, value, done, start, from, text + 1);
      assert tag[1..] == buf[text + 1..];
      return Ok((raws, value, text)), tag, done';
    }
    if buf[text] == NUL {
      ContentsEnd(s);
      LedFail(s0, done, ParseContents(s));
      return Err("unexpected end of data"), tag, done';
    }
    ContentsData(s);
    var d := AppendData(buf, from, start, raws, value, done);
    if d.Err? {
      LedFail(s0, done, ParseContents(s));
      return Err(d.error), tag, done';
    }
    ghost var e := Expand(AtTag, s);
    tag := e.rest;
    assert tag[0] == d.value.3 && tag[1..] == buf[d.value.2 + 1..];
    if d.value.3 != '<' {
      LedFail(s0, done, ParseContents(s));
      return Err("unexpected end of data"), tag, done';
    }
    LedBy(s0, done, ParseContents(s), Data(e.value), ParseTag(tag));
    done' := done + [Data(e.value)];
    return Ok((d.value.0, d.value.1, d.value.2)), tag, done';
  }

  /** A child behind the '<' at `text`, appended if it yields a node. */
  method AppendChild(buf: array<char>, text: nat, start: nat, raws: seq<RawNode>, value: Option<Slice>,
                     ghost s0: string, ghost done: seq<Node>, ghost tag: string)
    returns (r: Result<(seq<RawNode>, nat), string>, ghost done': seq<Node>)
    requires Terminated(buf) && start <= text < buf.Length - 1 && buf[text + 1] != '/'
    requires tag != [] && tag[0] == '<' && tag[1..] == buf[text + 1..]
    requires ParseContents(s0) == Led(done, ParseTag(tag)) && SoFar(buf[..], raws, value, done, start, text + 1)
    modifies buf
    ensures r.Err? ==> ParseContents(s0) == Fail(r.error)
    ensures r.Ok? ==>
              var (raws', after) := r.value;
              && text + 1 < after < buf.Length && Terminated(buf) && Kept(old(buf[..]), buf[..], text + 1, after)
              && ParseContents(s0) == Led(done', ParseContents(buf[after..]))
              && SoFar(buf[..], raws', value, done', start, after)
    decreases buf.Length - text, 2
  {
    hide ParseContents, ParseTag, ParseNode, SoFar, Shows, NodeIn;
    ghost var mid, inner := buf[..], buf[text + 1..];
    done' := done;
    assert Peek(inner, 0) == buf[text + 1];
    TagChild(tag, inner);
    var child := ParseNodeAt(buf, text + 1);
    if child.Err? {
      LedFail(s0, done, ParseTag(tag));
      return Err(child.error), done';
    }
    var (raw, after) := child.value;
    SoFarStays(mid, buf[..], raws, value, done, start, text + 1, after);
    if raw.None? {
      return Ok((raws, after)), done';
    }
    ghost var n := ParseNode(inner).value.value;
    SoFarAppend(buf[..], raws, value, done, raw.value, n, start, text + 1, after);
    LedBy(s0, done, ParseTag(tag), n, ParseContents(buf[after..]));
    done' := done + [n];
    return Ok((raws + [raw.value], after)), done';
  }

  method ParseContentsAt(buf: array<char>, start: nat) returns (r: Result<(seq<RawNode>, Option<Slice>, nat), string>)
    requires Terminated(buf) && start < buf.Length
    modifies buf
    ensures r.Err? ==> ParseContents(old(buf[start..])) == Fail(r.error)
    ensures r.Ok? ==>
              var (raws, value, text) := r.value;
              var p := ParseContents(old(buf[start..]));
              && start < text < buf.Length && Terminated(buf) && Kept(old(buf[..]), buf[..], start, text)
              && p.Done? && p.rest == buf[text..]
              && SoFar(buf[..], raws, value, p.value, start, text)
    decreases buf.Length - start, 3
  {
    hide ParseContents, ParseTag, SoFar, Kept;
    ghost var orig, s0 := buf[..], buf[start..];
    var raws: seq<RawNode>, value: Option<Slice>, text := [], None, start;
    ghost var done: seq<Node> := [];
    NothingYet(buf[..], start, start, s0);
    KeptAll(orig, start);
    while true
      invariant start <= text < buf.Length && Terminated(buf) && Kept(orig, buf[..], start, text)
      invariant ParseContents(s0) == Led(done, ParseContents(buf[text..]))
      invariant SoFar(buf[..], raws, value, done, start, text)
      decreases buf.Length - text
    {
      ghost var before := buf[..];
      ghost var tag;
      var next;
      next, tag, done := NextTag(buf, text, start, raws, value, s0, done);
      if next.Err? {
        return Err(next.error);
      }
      KeptTwice(orig, before, buf[..], start, text, next.value.2 + 1);
      raws, value, text := next.value.0, next.value.1, next.value.2;
      if buf[text + 1] == '/' {
        var c := CloseTag(buf, text, tag);
        if c.Err? {
          LedFail(s0, done, ParseTag(tag));
          return Err(c.error);
        }
        LedClosed(s0, done, buf[c.value..]);
        KeptWider(orig, buf[..], start, text + 1, start, c.value);
        KeptAll(buf[..], text + 1);
        KeptWider(buf[..], buf[..], text + 1, text + 1, text + 1, c.value);
        SoFarStays(buf[..], buf[..], raws, value, done, start, text + 1, c.value);
        return Ok((raws, value, c.value));
      }
      ghost var mid := buf[..];
      var child;
      child, done := AppendChild(buf, text, start, raws, value, s0, done, tag);
      if child.Err? {
        return Err(child.error);
      }
      KeptTwice(orig, mid, buf[..], start, text + 1, child.value.1);
      raws, text := child.value.0, child.value.1;
    }
  }

  lemma KeptAll(b: string, at: nat)
    ensures Kept(b, b, at, at)
  {}

  lemma NodeCases(s: string)
    ensures Peek(s, 0) == '?' && IsXmlDeclaration(s[1..]) ==> ParseNode(s) == NoNode(After(s[5..], "?>"))
    ensures Peek(s, 0) == '?' && !IsXmlDeclaration(s[1..]) ==> ParseNode(s) == NoNode(After(s[1..], "?>"))
    ensures Peek(s, 0) != '?' && Peek(s, 0) != '!' ==>
              ParseNode(s) == var r := ParseElement(s); if r.Done? then Done(Some(r.value), r.rest) else Fail(r.what)
  {
    hide After, ParseElement;
  }

  lemma BangCases(s: string)
    requires Peek(s, 0) == '!'
    ensures "!--" <= s ==> ParseNode(s) == NoNode(After(s[3..], "-->"))
    ensures "![CDATA[" <= s ==>
              ParseNode(s) == var r := After(s[8..], "]]>");
                              if r.Done? then Done(Some(CData(r.value)), r.rest) else Fail(r.what)
    ensures "!DOCTYPE" <= s && IsSpace(Peek(s, 8)) ==>
              ParseNode(s) == var r := AfterDoctype(s[9..], 0); if r.Done? then Done(None, r.rest) else Fail(r.what)
    ensures !("!--" <= s) && !("![CDATA[" <= s) && !("!DOCTYPE" <= s && IsSpace(Peek(s, 8))) ==>
              ParseNode(s) == NoNode(After(s[1..], ">"))
  {
    hide After, AfterDoctype;
    assert "!--" <= s <==> Peek(s, 1) == '-' && Peek(s, 2) == '-';
    if "![CDATA[" <= s { assert s[1] == '['; }
    if "!DOCTYPE" <= s { assert s[1] == 'D'; }
  }

  /** Declarations, instructions, comments and unknown markup: no node, nothing written. */
  method ReadOver(buf: array<char>, start: nat, from: nat, pattern: string)
          returns (r: Result<(Option<RawNode>, nat), string>)
    requires Terminated(buf) && start <= from < buf.Length && pattern != [] && NUL !in pattern
    ensures r.Err? ==> NoNode(After(buf[from..], pattern)) == Fail(r.error)
    ensures r.Ok? ==> r.value.0 == None && start < r.value.1 < buf.Length
                      && NoNode(After(buf[from..], pattern)) == Done(None, buf[r.value.1..])
  {
    hide After;
    var at := Seek(buf, pattern, from);
    if at.Err? {
      return Err(at.error);
    }
    return Ok((None, at.value + |pattern|));
  }

  method ParseNodeAt(buf: array<char>, start: nat) returns (r: Result<(Option<RawNode>, nat), string>)
    requires Terminated(buf) && start < buf.Length
    modifies buf
    ensures r.Err? ==> ParseNode(old(buf[start..])) == Fail(r.error)
    ensures r.Ok? ==>
              var (raw, text) := r.value;
              var p := ParseNode(old(buf[start..]));
              && start < text < buf.Length && Terminated(buf) && Kept(old(buf[..]), buf[..], start, text)
              && p.Done? && p.rest == buf[text..] && (raw.None? <==> p.value.None?)
              && (raw.Some? ==>
                    && Shows(buf[..], raw.value, p.value.value) && NodeIn(raw.value, start, text)
                    && !p.value.value.Data?)
    decreases buf.Length - start, 1
  {
    hide ParseNode, ParseElement, After, AfterDoctype;
    ghost var s := buf[start..];
    NodeCases(s);
    if buf[start] == '?' {
      var declaration := IsXmlDeclaration(buf[start + 1..]);
      r := ReadOver(buf, start, if declaration then start + 5 else start + 1, "?>");
    } else if buf[start] == '!' {
      BangCases(s);
      if "!--" <= buf[start..] {
        r := ReadOver(buf, start, start + 3, "-->");
      } else if "![CDATA[" <= buf[start..] {
        r := ParseCDataAt(buf, start);
      } else if "!DOCTYPE" <= buf[start..] && start + 8 < buf.Length && IsSpace(buf[start + 8]) {
        var end := SkipDoctype(buf, start + 9);
        r := if end.Err? then Err(end.error) else Ok((None, end.value));
      } else {
        r := ReadOver(buf, start, start + 1, ">");
      }
    } else {
      var e := ParseElementAt(buf, start);
      assert old(buf[..])[start..] == s;
      if e.Ok? { assert buf[..][e.value.1..] == buf[e.value.1..]; }
      r := if e.Err? then Err(e.error) else Ok((Some(e.value.0), e.value.1));
    }
  }

  method ParseCDataAt(buf: array<char>, start: nat) returns (r: Result<(Option<RawNode>, nat), string>)
    requires Terminated(buf) && start < buf.Length && "![CDATA[" <= buf[start..]
    modifies buf
    ensures r.Err? ==> After(old(buf[start..])[8..], "]]>") == Fail(r.error)
    ensures r.Ok? ==>
              var (raw, text) := r.value;
              var p := After(old(buf[start..])[8..], "]]>");
              && start < text < buf.Length && Terminated(buf) && Kept(old(buf[..]), buf[..], start, text)
              && p.Done? && p.rest == buf[text..]
              && raw.Some? && Shows(buf[..], raw.value, CData(p.value)) && NodeIn(raw.value, start, text)
  {
    hide After;
    ghost var s := buf[start..];
    assert s[7] == '[' && s[8..] == buf[start + 8..];
    var at := Seek(buf, "]]>", start + 8);
    if at.Err? {
      return Err(at.error);
    }
    var end := at.value;
    ghost var value, rest := buf[start + 8..end], buf[end + 3..];
    buf[end] := NUL;
    assert buf[start + 8..end] == value && buf[end + 3..] == rest;
    return Ok((Some(RawCData(Slice(start + 8, end - (start + 8)))), end + 3));
  }

  lemma ElementCases(s: string, n: nat, attrs: Parsed<seq<Attr>>)
    requires n == SpanLen(IsNameChar, s) > 0 && attrs == ParseAttrs(SkipSpace(s[n..]))
    ensures attrs.Fail? ==> ParseElement(s) == Fail(attrs.what)
    ensures attrs.Done? ==>
              if Peek(attrs.rest, 0) == '>' then
                var kids := ParseContents(attrs.rest[1..]);
                ParseElement(s) == if kids.Fail? then Fail(kids.what)
                                   else Done(Element(s[..n], attrs.value, ElementValue(kids.value, ""), kids.value),
                                             kids.rest)
              else if Peek(attrs.rest, 0) == '/' && Peek(attrs.rest, 1) == '>' then
                ParseElement(s) == Done(Element(s[..n], attrs.value, "", []), attrs.rest[2..])
              else ParseElement(s) == Fail("expected >")
  {
    hide ParseAttrs, ParseContents, SpanLen, SkipSpace;
  }

  lemma NoValue()
    ensures ElementValue([], "") == ""
  {}

  lemma NoName(s: string)
    requires SpanLen(IsNameChar, s) == 0
    ensures ParseElement(s) == Fail("expected element name")
  {}

  /** Attributes start behind the character that ended the name. */
  lemma AttrsBehind(b: string, raws: seq<RawAttr>, nameEnd: nat, at: nat, text: nat)
    requires AttrsIn(raws, at, text) && nameEnd <= at < |b|
    requires !IsNameChar(b[nameEnd]) && (raws != [] ==> IsAttrNameChar(b[at]))
    ensures AttrsIn(raws, nameEnd + 1, text)
  {}

  lemma KeptWider(a: string, b: string, lo: nat, hi: nat, lo': nat, hi': nat)
    requires Kept(a, b, lo, hi) && lo' <= lo && hi <= hi'
    ensures Kept(a, b, lo', hi')
  {}

  lemma AttrsSurvive(b: string, b': string, raws: seq<RawAttr>, attrs: seq<Attr>, lo: nat, mid: nat, from: nat, hi: nat)
    requires ShowsAttrs(b, raws, attrs) && AttrsIn(raws, lo, mid) && Kept(b, b', from, hi) && mid <= from <= hi
    ensures ShowsAttrs(b', raws, attrs) && AttrsIn(raws, lo, hi)
  {
    KeptSame(b, b', lo, from, hi);
    AttrsStay(b, b', raws, attrs, lo, mid);
  }

  lemma SoFarWider(b: string, raws: seq<RawNode>, value: Option<Slice>, done: seq<Node>, lo: nat, lo': nat, hi: nat)
    requires SoFar(b, raws, value, done, lo, hi) && lo' <= lo
    ensures SoFar(b, raws, value, done, lo', hi)
  {
    hide ShowsAll;
    NodesWider(raws, lo, hi, lo', hi);
  }

  /** Terminating the name completes the element and disturbs nothing inside it. */
  lemma ElementShown(orig: string, b: string, b': string, start: nat, nameEnd: nat, text: nat,
                     rawAttrs: seq<RawAttr>, attrs: seq<Attr>, raws: seq<RawNode>, value: Option<Slice>,
                     kids: seq<Node>)
    requires start < nameEnd < text <= |orig| && Kept(orig, b, nameEnd, text) && b' == b[nameEnd := NUL]
    requires ShowsAttrs(b, rawAttrs, attrs) && AttrsIn(rawAttrs, nameEnd + 1, text)
    requires SoFar(b, raws, value, kids, nameEnd + 1, text)
    ensures var raw := RawElement(Slice(start, nameEnd - start), rawAttrs, value, raws);
            && Shows(b', raw, Element(orig[start..nameEnd], attrs, ElementValue(kids, ""), kids))
            && NodeIn(raw, start, text)
    ensures Kept(orig, b', start, text)
  {
    hide ShowsText, ElementValue, Kept, Same, ShowsAttrs, AttrsIn, ShowsValue, ShowsAll, NodesIn, Shows, NodeIn;
    NameShown(orig, b, b', start, nameEnd, text);
    AttrsStay(b, b', rawAttrs, attrs, nameEnd + 1, text);
    NodesStay(b, b', raws, kids, nameEnd + 1, text);
    ValueStays(b, b', value, ElementValue(kids, ""), nameEnd + 1, text);
    NodesWider(raws, nameEnd + 1, text, start, text);
    AttrsLower(rawAttrs, nameEnd + 1, start, text);
    Assemble(b', Slice(start, nameEnd - start), orig[start..nameEnd], rawAttrs, attrs, value,
        ElementValue(kids, ""), raws, kids, start, text);
  }

  lemma NameShown(orig: string, b: string, b': string, start: nat, nameEnd: nat, text: nat)
    requires start < nameEnd < text <= |orig| && Kept(orig, b, nameEnd, text) && b' == b[nameEnd := NUL]
    ensures ShowsText(b', Slice(start, nameEnd - start), orig[start..nameEnd])
    ensures Same(b, b', nameEnd + 1, text) && Kept(orig, b', start, text)
  {
    assert b'[start..nameEnd] == orig[start..nameEnd];
  }

  lemma AttrsLower(raws: seq<RawAttr>, lo: nat, lo': nat, hi: nat)
    requires AttrsIn(raws, lo, hi) && lo' <= lo
    ensures AttrsIn(raws, lo', hi)
  {}

  lemma Assemble(b: string, slice: Slice, name: string, rawAttrs: seq<RawAttr>, attrs: seq<Attr>,
          value: Option<Slice>, v: string,
                 raws: seq<RawNode>, kids: seq<Node>, lo: nat, hi: nat)
    requires ShowsText(b, slice, name) && ShowsAttrs(b, rawAttrs, attrs) && ShowsValue(b, value, v)
             && ShowsAll(b, raws, kids)
    requires TextIn(slice, lo, hi) && AttrsIn(rawAttrs, lo, hi) && ValueIn(value, lo, hi) && NodesIn(raws, lo, hi)
    ensures Shows(b, RawElement(slice, rawAttrs, value, raws), Element(name, attrs, v, kids))
    ensures NodeIn(RawElement(slice, rawAttrs, value, raws), lo, hi)
  {
    hide ShowsText, TextIn, ShowsAttrs, AttrsIn, ShowsValue, ValueIn;
  }

  /** The name and the attributes; the name is not terminated yet. */
  method ElementHead(buf: array<char>, start: nat) returns (r: Result<(nat, seq<RawAttr>, nat), string>)
    requires Terminated(buf) && start < buf.Length
    modifies buf
    ensures r.Err? ==> ParseElement(old(buf[start..])) == Fail(r.error)
    ensures r.Ok? ==> Terminated(buf) && HeadRead(old(buf[..]), buf[..], start, r.value.0, r.value.1, r.value.2)
  {
    hide ParseElement, ParseAttrs, SkipSpace, SpanLen, ShowsAttrs, AttrsIn, Kept;
    ghost var orig, s := buf[..], buf[start..];
    assert s == orig[start..];
    var nameEnd := Skip(buf, IsNameChar, start);
    if nameEnd == start {
      NoName(s);
      return Err("expected element name");
    }
    assert s[nameEnd - start..] == buf[nameEnd..];
    var attrsAt := SkipBlanks(buf, nameEnd);
    var a := ParseAttributes(buf, attrsAt);
    if a.Err? {
      ElementCases(s, nameEnd - start, ParseAttrs(SkipSpace(s[nameEnd - start..])));
      return Err(a.error);
    }
    var (rawAttrs, text) := a.value;
    assert buf[text..] == buf[..][text..];
    AttrsBehind(orig, rawAttrs, nameEnd, attrsAt, text);
    KeptWider(orig, buf[..], attrsAt, text, nameEnd, text);
    return Ok((nameEnd, rawAttrs, text));
  }

  /** Placing the zero behind the name, once everything after it is read. */
  method FinishElement(buf: array<char>, start: nat, nameEnd: nat, text: nat, rawAttrs: seq<RawAttr>,
          raws: seq<RawNode>, value: Option<Slice>,
                       ghost orig: string, ghost attrs: seq<Attr>, ghost kids: seq<Node>) returns (raw: RawNode)
    requires start < nameEnd < text < buf.Length && Terminated(buf) && |orig| == buf.Length
             && Kept(orig, buf[..], nameEnd, text)
    requires ShowsAttrs(buf[..], rawAttrs, attrs) && AttrsIn(rawAttrs, nameEnd + 1, text)
    requires SoFar(buf[..], raws, value, kids, nameEnd + 1, text)
    modifies buf
    ensures Terminated(buf) && Kept(orig, buf[..], start, text) && buf[text..] == old(buf[text..])
    ensures Shows(buf[..], raw, Element(orig[start..nameEnd], attrs, ElementValue(kids, ""), kids))
            && NodeIn(raw, start, text)
  {
    hide ShowsAttrs, AttrsIn, SoFar, Kept, Shows, NodeIn, ElementValue;
    ghost var b := buf[..];
    buf[nameEnd] := NUL;
    assert buf[..] == b[nameEnd := NUL];
    ElementShown(orig, b, buf[..], start, nameEnd, text, rawAttrs, attrs, raws, value, kids);
    raw := RawElement(Slice(start, nameEnd - start), rawAttrs, value, raws);
  }

  /** The state behind the attributes of the element that starts at `start` in `orig`. */
  predicate HeadRead(orig: string, b: string, start: nat, nameEnd: nat, rawAttrs: seq<RawAttr>, text: nat) {
    && start < nameEnd <= text < |b| && |orig| == |b| && Kept(orig, b, nameEnd, text)
    && nameEnd - start == SpanLen(IsNameChar, orig[start..])
    && var attrs := ParseAttrs(SkipSpace(orig[start..][nameEnd - start..]));
       attrs.Done? && attrs.rest == b[text..] && ShowsAttrs(b, rawAttrs, attrs.value)
           && AttrsIn(rawAttrs, nameEnd + 1, text)
  }

  /** What a parsed element leaves: its slices show the tree, the rest of the text is untouched. */
  predicate ElementRead(orig: string, b: string, start: nat, raw: RawNode, text: nat)
    requires start <= |orig|
  {
    var p := ParseElement(orig[start..]);
    && start < text < |b| && Kept(orig, b, start, text)
    && p.Done? && p.rest == b[text..] && p.value.Element?
    && Shows(b, raw, p.value) && NodeIn(raw, start, text)
  }

  lemma HeadFacts(orig: string, b: string, start: nat, nameEnd: nat, rawAttrs: seq<RawAttr>, text: nat)
          returns (attrs: seq<Attr>)
    requires HeadRead(orig, b, start, nameEnd, rawAttrs, text)
    ensures start < nameEnd <= text < |b| && |orig| == |b| && Kept(orig, b, nameEnd, text)
    ensures ShowsAttrs(b, rawAttrs, attrs) && AttrsIn(rawAttrs, nameEnd + 1, text)
    ensures nameEnd - start == SpanLen(IsNameChar, orig[start..])
    ensures ParseAttrs(SkipSpace(orig[start..][nameEnd - start..])) == Done(attrs, b[text..])
  {
    hide ParseAttrs, SkipSpace, SpanLen, ShowsAttrs, AttrsIn, Kept;
    attrs := ParseAttrs(SkipSpace(orig[start..][nameEnd - start..])).value;
  }

  lemma HeadThenContents(orig: string, b: string, start: nat, nameEnd: nat, attrs: seq<Attr>, text: nat, body: string)
    requires start < nameEnd <= text < |b| && |orig| == |b| && b[text] == '>' && body == b[text + 1..]
    requires nameEnd - start == SpanLen(IsNameChar, orig[start..])
    requires ParseAttrs(SkipSpace(orig[start..][nameEnd - start..])) == Done(attrs, b[text..])
    ensures var kids := ParseContents(body);
            ParseElement(orig[start..]) ==
              if kids.Fail? then Fail(kids.what)
              else Done(Element(orig[start..nameEnd], attrs, ElementValue(kids.value, ""), kids.value), kids.rest)
  {
    hide ParseElement, ParseAttrs, ParseContents, SkipSpace, SpanLen, ElementValue;
    var s := orig[start..];
    ElementCases(s, nameEnd - start, Done(attrs, b[text..]));
    assert s[..nameEnd - start] == orig[start..nameEnd];
    assert b[text..][0] == b[text] && b[text..][1..] == body;
  }

  lemma HeadThenNone(orig: string, b: string, start: nat, nameEnd: nat, attrs: seq<Attr>, text: nat)
    requires start < nameEnd <= text < |b| && |orig| == |b| && b[text] != '>'
    requires nameEnd - start == SpanLen(IsNameChar, orig[start..])
    requires ParseAttrs(SkipSpace(orig[start..][nameEnd - start..])) == Done(attrs, b[text..])
    ensures if b[text] == '/' && text + 1 < |b| && b[text + 1] == '>' then
              ParseElement(orig[start..]) == Done(Element(orig[start..nameEnd], attrs, "", []), b[text + 2..])
            else ParseElement(orig[start..]) == Fail("expected >")
  {
    hide ParseElement, ParseAttrs, ParseContents, SkipSpace, SpanLen, ElementValue;
    var s := orig[start..];
    ElementCases(s, nameEnd - start, Done(attrs, b[text..]));
    assert s[..nameEnd - start] == orig[start..nameEnd];
    assert b[text..][0] == b[text];
    if text + 1 < |b| { assert b[text..][1] == b[text + 1] && b[text..][2..] == b[text + 2..]; }
  }

  lemma ElementDone(orig: string, b: string, start: nat, raw: RawNode, n: Node, text: nat)
    requires start < text < |b| && start <= |orig| && Kept(orig, b, start, text)
    requires ParseElement(orig[start..]) == Done(n, b[text..]) && n.Element?
    requires Shows(b, raw, n) && NodeIn(raw, start, text)
    ensures ElementRead(orig, b, start, raw, text)
  {
    hide ParseElement, Kept, Shows, NodeIn;
  }

  method ElementContents(buf: array<char>, start: nat, nameEnd: nat, rawAttrs: seq<RawAttr>, text: nat,
          ghost orig: string)
    returns (r: Result<(RawNode, nat), string>)
    requires Terminated(buf) && HeadRead(orig, buf[..], start, nameEnd, rawAttrs, text) && buf[text] == '>'
    modifies buf
    ensures r.Err? ==> ParseElement(orig[start..]) == Fail(r.error)
    ensures r.Ok? ==> Terminated(buf) && ElementRead(orig, buf[..], start, r.value.0, r.value.1)
    decreases buf.Length - text, 0
  {
    hide ParseElement, ParseContents, ShowsAttrs, AttrsIn, SoFar, Shows, NodeIn, ElementValue, Kept, HeadRead,
         ElementRead, ParseAttrs, SpanLen, SkipSpace;
    ghost var b := buf[..];
    ghost var attrs := HeadFacts(orig, b, start, nameEnd, rawAttrs, text);
    ghost var body := buf[text + 1..];
    HeadThenContents(orig, b, start, nameEnd, attrs, text, body);
    var c := ParseContentsAt(buf, text + 1);
    if c.Err? {
      return Err(c.error);
    }
    var (raws, value, end) := c.value;
    ghost var kids, rest := ParseContents(body).value, ParseContents(body).rest;
    AttrsSurvive(b, buf[..], rawAttrs, attrs, nameEnd + 1, text, text + 1, end);
    SoFarWider(buf[..], raws, value, kids, text + 1, nameEnd + 1, end);
    KeptWider(orig, b, nameEnd, text, nameEnd, text + 1);
    KeptTwice(orig, b, buf[..], nameEnd, text + 1, end);
    var raw := FinishElement(buf, start, nameEnd, end, rawAttrs, raws, value, orig, attrs, kids);
    assert buf[..][end..] == buf[end..] == rest;
    ElementDone(orig, buf[..], start, raw, Element(orig[start..nameEnd], attrs, ElementValue(kids, ""), kids), end);
    return Ok((raw, end));
  }

  method EmptyElement(buf: array<char>, start: nat, nameEnd: nat, rawAttrs: seq<RawAttr>, text: nat, ghost orig: string)
    returns (r: Result<(RawNode, nat), string>)
    requires Terminated(buf) && HeadRead(orig, buf[..], start, nameEnd, rawAttrs, text) && buf[text] == '/'
    modifies buf
    ensures r.Err? ==> ParseElement(orig[start..]) == Fail(r.error)
    ensures r.Ok? ==> Terminated(buf) && ElementRead(orig, buf[..], start, r.value.0, r.value.1)
  {
    hide ParseElement, ParseContents, ShowsAttrs, AttrsIn, SoFar, Shows, NodeIn, ElementValue, Kept, HeadRead,
         ElementRead, ParseAttrs, SpanLen, SkipSpace;
    ghost var b := buf[..];
    ghost var attrs := HeadFacts(orig, b, start, nameEnd, rawAttrs, text);
    HeadThenNone(orig, b, start, nameEnd, attrs, text);
    if buf[text + 1] != '>' {
      return Err("expected >");
    }
    ghost var rest := b[text + 2..];
    NothingYet(b, nameEnd + 1, text + 2, "");
    NoValue();
    AttrsWider(rawAttrs, nameEnd + 1, text, text + 2);
    KeptWider(orig, b, nameEnd, text, nameEnd, text + 2);
    var raw := FinishElement(buf, start, nameEnd, text + 2, rawAttrs, [], None, orig, attrs, []);
    assert buf[..][text + 2..] == buf[text + 2..] == rest;
    ElementDone(orig, buf[..], start, raw, Element(orig[start..nameEnd], attrs, "", []), text + 2);
    return Ok((raw, text + 2));
  }

  method ParseElementAt(buf: array<char>, start: nat) returns (r: Result<(RawNode, nat), string>)
    requires Terminated(buf) && start < buf.Length
    modifies buf
    ensures r.Err? ==> ParseElement(old(buf[start..])) == Fail(r.error)
    ensures r.Ok? ==> Terminated(buf) && ElementRead(old(buf[..]), buf[..], start, r.value.0, r.value.1)
    decreases buf.Length - start, 0
  {
    hide ParseElement, ElementRead, HeadRead, ParseAttrs, SpanLen, SkipSpace, ShowsAttrs, AttrsIn, Kept;
    ghost var orig := buf[..];
    assert orig[start..] == buf[start..];
    var head := ElementHead(buf, start);
    if head.Err? {
      return Err(head.error);
    }
    var (nameEnd, rawAttrs, text) := head.value;
    ghost var attrs := HeadFacts(orig, buf[..], start, nameEnd, rawAttrs, text);
    if buf[text] == '>' {
      r := ElementContents(buf, start, nameEnd, rawAttrs, text, orig);
    } else if buf[text] == '/' {
      r := EmptyElement(buf, start, nameEnd, rawAttrs, text, orig);
    } else {
      HeadThenNone(orig, buf[..], start, nameEnd, attrs, text);
      r := Err("expected >");
    }
  }

  // ---- documents ----

  lemma TopCases(s: string)
    ensures var t := SkipSpace(s);
            if Peek(t, 0) == NUL then ParseTop(s) == Done([], t)
            else if Peek(t, 0) != '<' then ParseTop(s) == Fail("expected <")
            else
              var c := ParseNode(t[1..]);
              ParseTop(s) == if c.Fail? then Fail(c.what)
                             else if c.value.None? then ParseTop(c.rest)
                             else Following(c.value.value, ParseTop(c.rest))
  {
    hide ParseNode, SkipSpace;
  }

  lemma TopLed(done: seq<Node>, n: Node, r: Parsed<seq<Node>>)
    ensures Led(done, Following(n, r)) == Led(done + [n], r)
    ensures Led([], r) == r && Led(done, Done([], "")) == Done(done, "")
  {
    if r.Done? {
      assert done + ([n] + r.value) == (done + [n]) + r.value;
      assert [] + r.value == r.value;
    }
    assert done + [] == done;
  }

  /** One round of the loop of parse: the end, or a top-level node. */
  method TopNode(buf: array<char>, from: nat, raws: seq<RawNode>, ghost p: Parsed<seq<Node>>, ghost done: seq<Node>)
    returns (r: Result<(seq<RawNode>, nat, bool), string>, ghost done': seq<Node>)
    requires from < buf.Length && Terminated(buf) && ShowsAll(buf[..], raws, done) && NodesIn(raws, 0, from)
    requires p == Led(done, ParseTop(buf[from..]))
    modifies buf
    ensures r.Err? ==> p == Fail(r.error)
    ensures r.Ok? ==>
              var (raws', after, ended) := r.value;
              && from <= after < buf.Length && Terminated(buf) && (!ended ==> from < after)
              && ShowsAll(buf[..], raws', done') && NodesIn(raws', 0, after)
              && if ended then p.Done? && p.value == done' else p == Led(done', ParseTop(buf[after..]))
  {
    hide ParseTop, ParseNode, SkipSpace, ShowsAll, NodesIn, Shows, NodeIn;
    done' := done;
    TopCases(buf[from..]);
    var text := SkipBlanks(buf, from);
    NodesWider(raws, 0, from, 0, text + 1);
    ghost var t := buf[text..];
    assert t[0] == buf[text];
    if buf[text] == NUL {
      TopDone(done, t);
      NodesWider(raws, 0, from, 0, text);
      return Ok((raws, text, true)), done';
    }
    if buf[text] != '<' {
      return Err("expected <"), done';
    }
    ghost var before, inner := buf[..], buf[text + 1..];
    assert t[1..] == inner;
    var child := ParseNodeAt(buf, text + 1);
    if child.Err? {
      return Err(child.error), done';
    }
    var (raw, after) := child.value;
    KeptSame(before, buf[..], 0, text + 1, after);
    NodesStay(before, buf[..], raws, done, 0, text + 1);
    NodesWider(raws, 0, text + 1, 0, after);
    if raw.None? {
      return Ok((raws, after, false)), done';
    }
    ghost var n := ParseNode(inner).value.value;
    TopLed(done, n, ParseTop(buf[after..]));
    ShownAppend(buf[..], raws, done, raw.value, n, text + 1, after);
    done' := done + [n];
    return Ok((raws + [raw.value], after, false)), done';
  }

  /** xml_document::parse: what the buffer ends up showing is the tree of the text it held. */
  method Parse(buf: array<char>) returns (r: Result<seq<RawNode>, string>)
    requires Terminated(buf)
    modifies buf
    ensures r.Err? ==> ParseDocument(old(buf[..])) == Fail(r.error)
    ensures r.Ok? ==> ParseDocument(old(buf[..])).Done? && ShowsAll(buf[..], r.value, ParseDocument(old(buf[..])).value)
  {
    hide ParseTop, ShowsAll, NodesIn;
    ghost var s0 := buf[..];
    var text := 0;
    if buf[0] as int == 0xEF {
      if buf[1] as int == 0xBB {
        if buf[2] as int == 0xBF {
          text := 3;
        }
      }
    }
    ghost var p := ParseTop(buf[text..]);
    assert ParseDocument(s0) == p by { assert s0[0..] == s0; }
    var raws: seq<RawNode> := [];
    ghost var done: seq<Node> := [];
    TopLed([], Data(""), p);
    NothingShown(buf[..]);
    var ended := false;
    while !ended
      invariant text < buf.Length && Terminated(buf) && ShowsAll(buf[..], raws, done) && NodesIn(raws, 0, text)
      invariant if ended then p.Done? && p.value == done else p == Led(done, ParseTop(buf[text..]))
      decreases buf.Length - text, !ended
    {
      var next;
      next, done := TopNode(buf, text, raws, p, done);
      if next.Err? {
        return Err(next.error);
      }
      raws, text, ended := next.value.0, next.value.1, next.value.2;
    }
    return Ok(raws);
  }

  lemma NothingShown(b: string)
    ensures ShowsAll(b, [], []) && NodesIn([], 0, 0) && NodesIn([], 0, 3)
  {}

  lemma TopDone(done: seq<Node>, rest: string)
    ensures Led(done, Done([], rest)) == Done(done, rest)
  {
    assert done + [] == done;
  }

  lemma ShownAppend(b: string, raws: seq<RawNode>, done: seq<Node>, raw: RawNode, n: Node, lo: nat, hi: nat)
    requires ShowsAll(b, raws, done) && NodesIn(raws, 0, hi) && Shows(b, raw, n) && NodeIn(raw, lo, hi)
    ensures ShowsAll(b, raws + [raw], done + [n]) && NodesIn(raws + [raw], 0, hi)
  {
    hide Shows, NodeIn;
    NodeWider(raw, lo, hi, 0, hi);
  }
}
