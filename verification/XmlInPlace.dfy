/** The parser of external/rapidxml/rapidxml.hpp under parse_default, as it runs: nodes are
    slices of the buffer, and the buffer is rewritten while it is read, by expanded references
    and by the zero placed after every string. */
module XmlInPlace {
  import opened Wrappers
  import opened XmlText
  import opened XmlTree
  import opened XmlExpand

  datatype Slice = Slice(at: nat, len: nat)

  datatype RawAttr = RawAttr(name: Slice, value: Slice)

  datatype RawNode =
    | RawElement(name: Slice, attrs: seq<RawAttr>, value: Option<Slice>, children: seq<RawNode>)
    | RawData(data: Slice)
    | RawCData(data: Slice)

  // ---- what a slice of the buffer shows ----

  /** The slice holds `v` and a terminating zero follows it. */
  predicate ShowsText(b: string, s: Slice, v: string) {
    s.at + s.len < |b| && b[s.at..s.at + s.len] == v && b[s.at + s.len] == NUL
  }

  /** The slice and its terminator lie in [lo, hi). */
  predicate TextIn(s: Slice, lo: nat, hi: nat) { lo <= s.at && s.at + s.len < hi }

  predicate ShowsAttr(b: string, raw: RawAttr, a: Attr) {
    ShowsText(b, raw.name, a.name) && ShowsText(b, raw.value, a.value)
  }

  predicate AttrIn(raw: RawAttr, lo: nat, hi: nat) { TextIn(raw.name, lo, hi) && TextIn(raw.value, lo, hi) }

  predicate ShowsAttrs(b: string, raws: seq<RawAttr>, attrs: seq<Attr>) {
    |raws| == |attrs| && forall i | 0 <= i < |raws| :: ShowsAttr(b, raws[i], attrs[i])
  }

  predicate AttrsIn(raws: seq<RawAttr>, lo: nat, hi: nat) {
    forall i | 0 <= i < |raws| :: AttrIn(raws[i], lo, hi)
  }

  predicate ShowsValue(b: string, value: Option<Slice>, v: string) {
    if value.None? then v == "" else ShowsText(b, value.value, v)
  }

  predicate ValueIn(value: Option<Slice>, lo: nat, hi: nat) {
    value.Some? ==> TextIn(value.value, lo, hi)
  }

  predicate Shows(b: string, raw: RawNode, n: Node) {
    match raw
    case RawData(value) => n.Data? && ShowsText(b, value, n.value)
    case RawCData(value) => n.CData? && ShowsText(b, value, n.value)
    case RawElement(name, attrs, value, children) =>
      && n.Element? && ShowsText(b, name, n.name) && ShowsAttrs(b, attrs, n.attrs) && ShowsValue(b, value, n.value)
      && |children| == |n.children| && forall i | 0 <= i < |children| :: Shows(b, children[i], n.children[i])
  }

  predicate NodeIn(raw: RawNode, lo: nat, hi: nat) {
    match raw
    case RawData(value) => TextIn(value, lo, hi)
    case RawCData(value) => TextIn(value, lo, hi)
    case RawElement(name, attrs, value, children) =>
      && TextIn(name, lo, hi) && AttrsIn(attrs, lo, hi) && ValueIn(value, lo, hi)
      && forall i | 0 <= i < |children| :: NodeIn(children[i], lo, hi)
  }

  predicate ShowsAll(b: string, raws: seq<RawNode>, nodes: seq<Node>) {
    |raws| == |nodes| && forall i | 0 <= i < |raws| :: Shows(b, raws[i], nodes[i])
  }

  predicate NodesIn(raws: seq<RawNode>, lo: nat, hi: nat) {
    forall i | 0 <= i < |raws| :: NodeIn(raws[i], lo, hi)
  }

  // ---- writes elsewhere do not matter ----

  predicate Same(b: string, b': string, lo: nat, hi: nat) {
    |b| == |b'| && forall i | lo <= i < hi && i < |b| :: b[i] == b'[i]
  }

  lemma TextStays(b: string, b': string, s: Slice, v: string, lo: nat, hi: nat)
    requires ShowsText(b, s, v) && TextIn(s, lo, hi) && Same(b, b', lo, hi)
    ensures ShowsText(b', s, v)
  {
    assert b[s.at..s.at + s.len] == b'[s.at..s.at + s.len];
  }

  lemma AttrsStay(b: string, b': string, raws: seq<RawAttr>, attrs: seq<Attr>, lo: nat, hi: nat)
    requires ShowsAttrs(b, raws, attrs) && AttrsIn(raws, lo, hi) && Same(b, b', lo, hi)
    ensures ShowsAttrs(b', raws, attrs)
  {
    forall i | 0 <= i < |raws| ensures ShowsAttr(b', raws[i], attrs[i]) {
      assert ShowsAttr(b, raws[i], attrs[i]) && AttrIn(raws[i], lo, hi);
      TextStays(b, b', raws[i].name, attrs[i].name, lo, hi);
      TextStays(b, b', raws[i].value, attrs[i].value, lo, hi);
    }
  }

  lemma ValueStays(b: string, b': string, value: Option<Slice>, v: string, lo: nat, hi: nat)
    requires ShowsValue(b, value, v) && ValueIn(value, lo, hi) && Same(b, b', lo, hi)
    ensures ShowsValue(b', value, v)
  {
    if value.Some? { TextStays(b, b', value.value, v, lo, hi); }
  }

  lemma {:induction false} NodeStays(b: string, b': string, raw: RawNode, n: Node, lo: nat, hi: nat)
    requires Shows(b, raw, n) && NodeIn(raw, lo, hi) && Same(b, b', lo, hi)
    ensures Shows(b', raw, n)
  {
    hide ShowsText, TextIn, ShowsAttrs, AttrsIn, ShowsValue, ValueIn, Same;
    match raw
    case RawData(value) => TextStays(b, b', value, n.value, lo, hi);
    case RawCData(value) => TextStays(b, b', value, n.value, lo, hi);
    case RawElement(name, attrs, value, children) =>
      TextStays(b, b', name, n.name, lo, hi);
      AttrsStay(b, b', attrs, n.attrs, lo, hi);
      ValueStays(b, b', value, n.value, lo, hi);
      forall i | 0 <= i < |children| ensures Shows(b', children[i], n.children[i]) {
        NodeStays(b, b', children[i], n.children[i], lo, hi);
      }
  }

  lemma NodesStay(b: string, b': string, raws: seq<RawNode>, nodes: seq<Node>, lo: nat, hi: nat)
    requires ShowsAll(b, raws, nodes) && NodesIn(raws, lo, hi) && Same(b, b', lo, hi)
    ensures ShowsAll(b', raws, nodes)
  {
    forall i | 0 <= i < |raws| ensures Shows(b', raws[i], nodes[i]) {
      NodeStays(b, b', raws[i], nodes[i], lo, hi);
    }
  }

  lemma {:induction false} NodeWider(raw: RawNode, lo: nat, hi: nat, lo': nat, hi': nat)
    requires NodeIn(raw, lo, hi) && lo' <= lo && hi <= hi'
    ensures NodeIn(raw, lo', hi')
  {
    if raw.RawElement? {
      forall i | 0 <= i < |raw.children| ensures NodeIn(raw.children[i], lo', hi') {
        NodeWider(raw.children[i], lo, hi, lo', hi');
      }
    }
  }

  lemma NodesWider(raws: seq<RawNode>, lo: nat, hi: nat, lo': nat, hi': nat)
    requires NodesIn(raws, lo, hi) && lo' <= lo && hi <= hi'
    ensures NodesIn(raws, lo', hi')
  {
    forall i | 0 <= i < |raws| ensures NodeIn(raws[i], lo', hi') {
      NodeWider(raws[i], lo, hi, lo', hi');
    }
  }

  // ---- attributes ----

  method AttributeHead(buf: array<char>, start: nat) returns (r: Result<(nat, char, nat), string>)
    requires Terminated(buf) && start < buf.Length && IsAttrNameChar(buf[start])
    modifies buf
    ensures r.Err? ==> AttrHead(old(buf[start..])) == Fail(r.error)
    ensures r.Ok? ==>
              var (nameEnd, quote, text) := r.value;
              && start <= nameEnd < text < buf.Length && Terminated(buf) && buf[nameEnd] == NUL
              && (quote == '\'' || quote == '"')
              && Kept(old(buf[..]), buf[..], nameEnd, nameEnd + 1)
              && AttrHead(old(buf[start..])) == Done((buf[start..nameEnd], quote), buf[text..])
  {
    hide SpanLen, SkipSpace;
    ghost var orig := buf[..];
    ghost var s := orig[start..];
    var nameEnd := Skip(buf, IsAttrNameChar, start);
    ghost var name := s[..nameEnd - start];
    var text := SkipBlanks(buf, nameEnd);
    ghost var s1 := SkipSpace(s[nameEnd - start..]);
    assert buf[text..] == s1 && buf[text] == s1[0];
    if buf[text] != '=' {
      return Err("expected =");
    }
    text := text + 1;
    buf[nameEnd] := NUL;
    assert buf[text..] == orig[text..] == s1[1..];
    assert buf[start..nameEnd] == name;
    text := SkipBlanks(buf, text);
    ghost var s2 := SkipSpace(s1[1..]);
    assert buf[text..] == s2 && buf[text] == s2[0];
    var quote := buf[text];
    if quote != '\'' && quote != '"' {
      return Err("expected ' or \"");
    }
    text := text + 1;
    assert buf[text..] == s2[1..];
    return Ok((nameEnd, quote, text));
  }

  /** Terminating the value completes the attribute. */
  lemma AttrShown(orig: string, b1: string, b2: string, start: nat, nameEnd: nat, valueAt: nat, end: nat, text: nat)
    requires start <= nameEnd < valueAt <= end <= text < |orig|
    requires Kept(orig, b1, nameEnd, nameEnd + 1) && b1[nameEnd] == NUL && Kept(b1, b2, valueAt, text)
    ensures var b3 := b2[end := NUL];
            && ShowsAttr(b3, RawAttr(Slice(start, nameEnd - start), Slice(valueAt, end - valueAt)),
               Attr(b1[start..nameEnd], b2[valueAt..end]))
            && Kept(orig, b3, start, text + 1) && b3[text + 1..] == b2[text + 1..]
  {
    var b3 := b2[end := NUL];
    assert b3[start..nameEnd] == b1[start..nameEnd];
    assert b3[valueAt..end] == b2[valueAt..end];
  }

  method ParseAttribute(buf: array<char>, start: nat) returns (r: Result<(RawAttr, nat), string>)
    requires Terminated(buf) && start < buf.Length && IsAttrNameChar(buf[start])
    modifies buf
    ensures r.Err? ==> ParseAttr(old(buf[start..])) == Fail(r.error)
    ensures r.Ok? ==>
              var (raw, text) := r.value;
              var p := ParseAttr(old(buf[start..]));
              && start < text < buf.Length && Terminated(buf) && Kept(old(buf[..]), buf[..], start, text)
              && p.Done? && p.rest == buf[text..]
              && ShowsAttr(buf[..], raw, p.value) && AttrIn(raw, start, text)
  {
    hide Expand, AttrHead, ShowsAttr;
    ghost var orig := buf[..];
    var head := AttributeHead(buf, start);
    if head.Err? {
      return Err(head.error);
    }
    var (nameEnd, quote, valueAt) := head.value;
    ghost var b1 := buf[..];
    assert buf[start..nameEnd] == b1[start..nameEnd];
    var e := SkipAndExpand(buf, AtQuote(quote), valueAt);
    if e.Err? {
      return Err(e.error);
    }
    var (end, text) := e.value;
    if buf[text] != quote {
      return Err("expected ' or \"");
    }
    ghost var b2 := buf[..];
    assert buf[valueAt..end] == b2[valueAt..end] && buf[text..] == b2[text..] && b2[text..][1..] == b2[text + 1..];
    assert b2[buf.Length - 1] == b1[buf.Length - 1];
    AttrShown(orig, b1, b2, start, nameEnd, valueAt, end, text);
    hide Kept;
    buf[end] := NUL;
    assert buf[..] == b2[end := NUL];
    assert buf[text + 1..] == buf[..][text + 1..];
    return Ok((RawAttr(Slice(start, nameEnd - start), Slice(valueAt, end - valueAt)), text + 1));
  }

  lemma KeptTwice(a: string, b: string, c: string, lo: nat, mid: nat, hi: nat)
    requires Kept(a, b, lo, mid) && Kept(b, c, mid, hi) && lo <= mid <= hi
    ensures Kept(a, c, lo, hi)
  {}

  lemma KeptSame(b: string, b': string, lo: nat, mid: nat, hi: nat)
    requires Kept(b, b', mid, hi)
    ensures Same(b, b', lo, mid)
  {}

  lemma OneMoreAttr(s0: string, done: seq<Attr>, s: string, a: Attr, rest: string)
    requires ParseAttrs(s0) == Led(done, ParseAttrs(s))
    requires IsAttrNameChar(Peek(s, 0)) && ParseAttr(s) == Done(a, rest)
    ensures ParseAttrs(s0) == Led(done + [a], ParseAttrs(SkipSpace(rest)))
  {
    hide ParseAttr, SkipSpace;
    var more := ParseAttrs(SkipSpace(rest));
    assert ParseAttrs(s) == if more.Fail? then more else Done([a] + more.value, more.rest);
    if more.Done? { assert done + ([a] + more.value) == (done + [a]) + more.value; }
  }

  lemma AttrFailed(s0: string, done: seq<Attr>, s: string, what: string)
    requires ParseAttrs(s0) == Led(done, ParseAttrs(s))
    requires IsAttrNameChar(Peek(s, 0)) && ParseAttr(s) == Fail(what)
    ensures ParseAttrs(s0) == Fail(what)
  {
    hide ParseAttr, SkipSpace;
  }

  lemma AttrsEnd(s0: string, done: seq<Attr>, s: string)
    requires ParseAttrs(s0) == Led(done, ParseAttrs(s)) && !IsAttrNameChar(Peek(s, 0))
    ensures ParseAttrs(s0) == Done(done, s)
  {
    assert done + [] == done;
  }

  lemma AttrsAppend(b: string, raws: seq<RawAttr>, done: seq<Attr>, raw: RawAttr, a: Attr, lo: nat, mid: nat, hi: nat)
    requires ShowsAttrs(b, raws, done) && AttrsIn(raws, lo, mid)
    requires ShowsAttr(b, raw, a) && AttrIn(raw, mid, hi) && lo <= mid <= hi
    ensures ShowsAttrs(b, raws + [raw], done + [a]) && AttrsIn(raws + [raw], lo, hi)
  {
    hide ShowsAttr;
  }

  lemma AttrsWider(raws: seq<RawAttr>, lo: nat, hi: nat, hi': nat)
    requires AttrsIn(raws, lo, hi) && hi <= hi'
    ensures AttrsIn(raws, lo, hi')
  {}

  method ParseAttributes(buf: array<char>, start: nat) returns (r: Result<(seq<RawAttr>, nat), string>)
    requires Terminated(buf) && start < buf.Length
    modifies buf
    ensures r.Err? ==> ParseAttrs(old(buf[start..])) == Fail(r.error)
    ensures r.Ok? ==>
              var (raws, text) := r.value;
              var p := ParseAttrs(old(buf[start..]));
              && start <= text < buf.Length && Terminated(buf) && Kept(old(buf[..]), buf[..], start, text)
              && p.Done? && p.rest == buf[text..]
              && ShowsAttrs(buf[..], raws, p.value) && AttrsIn(raws, start, text)
              && (raws != [] ==> IsAttrNameChar(old(buf[start])))
  {
    hide ParseAttrs, ParseAttr, ShowsAttrs, AttrsIn, ShowsAttr, AttrIn, SkipSpace;
    ghost var orig, s0 := buf[..], buf[start..];
    var raws: seq<RawAttr>, text := [], start;
    ghost var done: seq<Attr> := [];
    NoAttrsYet(buf[..], start, s0);
    while IsAttrNameChar(buf[text])
      invariant start <= text < buf.Length && Terminated(buf) && Kept(orig, buf[..], start, text)
      invariant ParseAttrs(s0) == Led(done, ParseAttrs(buf[text..]))
      invariant ShowsAttrs(buf[..], raws, done) && AttrsIn(raws, start, text)
      invariant if raws == [] then buf[text] == orig[start] else IsAttrNameChar(orig[start])
      decreases buf.Length - text
    {
      ghost var before, s := buf[..], buf[text..];
      assert Peek(s, 0) == buf[text];
      var one := ParseAttribute(buf, text);
      if one.Err? {
        AttrFailed(s0, done, s, one.error);
        return Err(one.error);
      }
      var (raw, next) := one.value;
      ghost var a := ParseAttr(s).value;
      OneMoreAttr(s0, done, s, a, buf[next..]);
      KeptTwice(orig, before, buf[..], start, text, next);
      KeptSame(before, buf[..], start, text, next);
      AttrsStay(before, buf[..], raws, done, start, text);
      AttrsAppend(buf[..], raws, done, raw, a, start, text, next);
      raws, done := raws + [raw], done + [a];
      text := SkipBlanks(buf, next);
      AttrsWider(raws, start, next, text);
    }
    assert Peek(buf[text..], 0) == buf[text];
    AttrsEnd(s0, done, buf[text..]);
    return Ok((raws, text));
  }

  lemma NoAttrsYet(b: string, start: nat, s: string)
    ensures ShowsAttrs(b, [], []) && AttrsIn([], start, start)
    ensures ParseAttrs(s) == Led([], ParseAttrs(s))
  {
    if ParseAttrs(s).Done? { assert [] + ParseAttrs(s).value == ParseAttrs(s).value; }
  }
}
