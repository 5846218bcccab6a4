/** The texts external/rapidxml reads under parse_default, described by their parts: every choice
    of white space, quotes and references, and everything that is read over. A form is one way of
    writing a tree; `Write…` is its text, `Means…` what the text stands for, and `…Ok` says when a
    form may be followed by the given text. */
module XmlGrammar {
  import opened Words
  import opened XmlText
  import opened XmlTree
  import opened XmlDigits

  // ---- characters ----

  predicate SpaceText(s: string) { forall i | 0 <= i < |s| :: s[i] in " \t\n\r" }

  predicate NameText(s: string) { forall i | 0 <= i < |s| :: s[i] !in " \t\n\r/>?" && s[i] != NUL }

  predicate AttrNameText(s: string) { forall i | 0 <= i < |s| :: s[i] !in " \t\n\r/<>=?!" && s[i] != NUL }

  /** `mark` occurs in `text + mark` at the end only. */
  predicate EndsFirst(text: string, mark: string) { forall i | 0 <= i < |text| :: !(mark <= (text + mark)[i..]) }

  // ---- character data ----

  datatype Chunk = Plain(c: char) | Named(name: string) | Decimal(digits: string) | Hex(digits: string)

  function WriteChunk(k: Chunk): (s: string)
    ensures s != ""
  {
    match k
    case Plain(c) => [c]
    case Named(name) => "&" + name + ";"
    case Decimal(digits) => "&#" + digits + ";"
    case Hex(digits) => "&#x" + digits + ";"
  }

  /** The entities XML predefines. */
  function EntityChar(name: string): char {
    if name == "lt" then '<' else if name == "gt" then '>' else if name == "amp" then '&'
    else if name == "apos" then '\'' else '"'
  }

  ghost function MeansChunk(k: Chunk): string {
    match k
    case Plain(c) => [c]
    case Named(name) => [EntityChar(name)]
    case Decimal(digits) => Utf8(Value(digits, 10) % TWO_64)
    case Hex(digits) => Utf8(Value(digits, 16) % TWO_64)
  }

  /** What may follow an ampersand that stands for itself. */
  predicate Bare(s: string) {
    && !("lt;" <= s) && !("gt;" <= s) && !("amp;" <= s) && !("apos;" <= s) && !("quot;" <= s)
    && !("#" <= s)
  }

  /** A piece of character data that runs up to `stop`. */
  ghost predicate ChunkOk(stop: char, k: Chunk, after: string) {
    match k
    case Plain(c) => c != NUL && c != stop && (c == '&' ==> Bare(after))
    case Named(name) => name in {"lt", "gt", "amp", "apos", "quot"}
    case Decimal(digits) => AllHex(digits) && Value(digits, 10) % TWO_64 < 0x110000
    case Hex(digits) => AllHex(digits) && Value(digits, 16) % TWO_64 < 0x110000
  }

  function WriteChunks(ks: seq<Chunk>): string {
    if ks == [] then "" else WriteChunk(ks[0]) + WriteChunks(ks[1..])
  }

  ghost function MeansChunks(ks: seq<Chunk>): string {
    if ks == [] then "" else MeansChunk(ks[0]) + MeansChunks(ks[1..])
  }

  ghost predicate ChunksOk(stop: char, ks: seq<Chunk>, after: string) {
    ks != [] ==> ChunkOk(stop, ks[0], WriteChunks(ks[1..]) + after) && ChunksOk(stop, ks[1..], after)
  }

  // ---- attributes ----

  datatype AttrForm = AttrForm(
    name: string,
    before: string,        // between the name and '='
    behind: string,        // between '=' and the quote
    quote: char,
    value: seq<Chunk>,
    gap: string)           // behind the closing quote

  function WriteValue(a: AttrForm): string { [a.quote] + WriteChunks(a.value) + [a.quote] }

  function WriteAttr(a: AttrForm): string { a.name + a.before + "=" + a.behind + WriteValue(a) + a.gap }

  ghost function MeansAttr(a: AttrForm): Attr { Attr(a.name, MeansChunks(a.value)) }

  ghost predicate AttrOk(a: AttrForm, after: string) {
    && a.name != "" && AttrNameText(a.name) && SpaceText(a.before) && SpaceText(a.behind) && SpaceText(a.gap)
    && (a.quote == '\'' || a.quote == '"') && ChunksOk(a.quote, a.value, [a.quote] + a.gap + after)
  }

  function WriteAttrs(attrs: seq<AttrForm>): string {
    if attrs == [] then "" else WriteAttr(attrs[0]) + WriteAttrs(attrs[1..])
  }

  ghost function MeansAttrs(attrs: seq<AttrForm>): seq<Attr> {
    if attrs == [] then [] else [MeansAttr(attrs[0])] + MeansAttrs(attrs[1..])
  }

  ghost predicate AttrsOk(attrs: seq<AttrForm>, after: string) {
    attrs != [] ==> AttrOk(attrs[0], WriteAttrs(attrs[1..]) + after) && AttrsOk(attrs[1..], after)
  }

  // ---- document types ----

  /** A document type is read over: characters, and brackets with anything balanced inside. */
  datatype Part = Loose(c: char) | Brackets(parts: seq<Part>)

  function WritePart(p: Part): string
    decreases p, 1
  {
    match p case Loose(c) => [c] case Brackets(parts) => "[" + WriteParts(parts) + "]"
  }

  function WriteParts(parts: seq<Part>): string
    decreases parts, 0
  {
    if parts == [] then "" else WritePart(parts[0]) + WriteParts(parts[1..])
  }

  predicate PartOk(p: Part, inside: bool)
    decreases p, 1
  {
    match p
    case Loose(c) => c != NUL && c != '[' && c != (if inside then ']' else '>')
    case Brackets(parts) => PartsOk(parts, true)
  }

  predicate PartsOk(parts: seq<Part>, inside: bool)
    decreases parts, 0
  {
    parts != [] ==> PartOk(parts[0], inside) && PartsOk(parts[1..], inside)
  }

  // ---- nodes ----

  /** What can stand behind a '<', except a closing tag. */
  datatype Markup =
    | Instruction(text: string)
    | Comment(text: string)
    | Section(text: string)
    | Doctype(space: char, parts: seq<Part>)
    | Other(text: string)
    | Tagged(name: string, gap: string, attrs: seq<AttrForm>, body: Body)

  datatype Body = Closed | Open(content: Content)

  /** Character data and the tag that ends it. */
  datatype Content = Content(text: seq<Chunk>, tag: Tag)

  datatype Tag = Close(name: string, gap: string) | Child(child: Markup, more: Content)

  function WriteMarkup(m: Markup): string {
    match m
    case Instruction(text) => "?" + text + "?>"
    case Comment(text) => "!--" + text + "-->"
    case Section(text) => "![CDATA[" + text + "]]>"
    case Doctype(space, parts) => "!DOCTYPE" + [space] + WriteParts(parts) + ">"
    case Other(text) => "!" + text + ">"
    case Tagged(name, gap, attrs, body) => name + gap + WriteAttrs(attrs) + WriteBody(body)
  }

  function WriteBody(b: Body): string {
    match b case Closed => "/>" case Open(content) => ">" + WriteContent(content)
  }

  function WriteContent(c: Content): string { WriteChunks(c.text) + "<" + WriteTag(c.tag) }

  function WriteTag(t: Tag): string {
    match t
    case Close(name, gap) => "/" + name + gap + ">"
    case Child(child, more) => WriteMarkup(child) + WriteContent(more)
  }

  /** Elements and CDATA sections are nodes; the rest yields none. An element's closing tag may bear
      any name. */
  ghost function MeansMarkup(m: Markup): seq<Node> {
    match m
    case Section(text) => [CData(text)]
    case Tagged(name, _, attrs, body) => [MeansElement(name, MeansAttrs(attrs), MeansBody(body))]
    case _ => []
  }

  function MeansElement(name: string, attrs: seq<Attr>, kids: seq<Node>): Node {
    Element(name, attrs, ElementValue(kids, ""), kids)
  }

  ghost function MeansBody(b: Body): seq<Node> {
    match b case Closed => [] case Open(content) => MeansContent(content)
  }

  /** Character data is a node unless its text is blank. */
  ghost function MeansContent(c: Content): seq<Node> { MeansText(c.text) + MeansTag(c.tag) }

  ghost function MeansText(text: seq<Chunk>): seq<Node> {
    if SpaceText(WriteChunks(text)) then [] else [Data(MeansChunks(text))]
  }

  ghost function MeansTag(t: Tag): seq<Node> {
    match t case Close(_, _) => [] case Child(child, more) => MeansMarkup(child) + MeansContent(more)
  }

  ghost predicate MarkupOk(m: Markup, after: string) {
    match m
    case Instruction(text) => NulFree(text) && EndsFirst(text, "?>")
    case Comment(text) => NulFree(text) && EndsFirst(text, "-->")
    case Section(text) => NulFree(text) && EndsFirst(text, "]]>")
    case Doctype(space, parts) => space in " \t\n\r" && PartsOk(parts, false)
    case Other(text) =>
      && NulFree(text) && '>' !in text && !("--" <= text) && !("[CDATA[" <= text)
      && !(7 < |text| && "DOCTYPE" <= text && text[7] in " \t\n\r")
    case Tagged(name, gap, attrs, body) =>
      && name != "" && NameText(name) && name[0] != '!' && SpaceText(gap) && (attrs != [] ==> gap != "")
      && AttrsOk(attrs, WriteBody(body) + after) && BodyOk(body, after)
  }

  ghost predicate BodyOk(b: Body, after: string) {
    match b case Closed => true case Open(content) => ContentOk(content, after)
  }

  ghost predicate ContentOk(c: Content, after: string) {
    ChunksOk('<', c.text, "<" + WriteTag(c.tag) + after) && TagOk(c.tag, after)
  }

  ghost predicate TagOk(t: Tag, after: string) {
    match t
    case Close(name, gap) => NameText(name) && SpaceText(gap)
    case Child(child, more) => MarkupOk(child, WriteContent(more) + after) && ContentOk(more, after)
  }

  // ---- documents ----

  datatype Item = Item(gap: string, markup: Markup)

  /** A byte order mark or not, nodes with white space in front, and white space at the end. */
  datatype Document = Document(marked: bool, items: seq<Item>, gap: string)

  function WriteItems(items: seq<Item>): string {
    if items == [] then "" else items[0].gap + "<" + WriteMarkup(items[0].markup) + WriteItems(items[1..])
  }

  ghost function MeansItems(items: seq<Item>): seq<Node> {
    if items == [] then [] else MeansMarkup(items[0].markup) + MeansItems(items[1..])
  }

  ghost predicate ItemsOk(items: seq<Item>, after: string) {
    items != [] ==>
      SpaceText(items[0].gap) && MarkupOk(items[0].markup, WriteItems(items[1..]) + after) && ItemsOk(items[1..], after)
  }

  function WriteDocument(d: Document): string {
    (if d.marked then [0xEF as char, 0xBB as char, 0xBF as char] else "") + WriteItems(d.items) + d.gap
  }

  /** A document is followed by the end of the text or by a zero. */
  ghost predicate DocumentOk(d: Document, after: string) {
    SpaceText(d.gap) && ItemsOk(d.items, d.gap + after) && (after == "" || after[0] == NUL)
  }
}
