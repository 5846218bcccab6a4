/** The texts that src/logging reads as endpoints, described by their parts, and that its parser
    accepts exactly these. */
module EndpointGrammar {
  import opened Wrappers
  import opened EndpointText

  /** The white space of the C locale. */
  const BLANKS := " \t\n\U{0B}\U{0C}\r"

  /** What std::stoi accepts: blanks, a sign, digits. A port lies between 0 and 65535. */
  ghost predicate SpellsPort(text: string, port: nat) {
    && port <= 65535
    && exists blanks: string, sign: string, digits: string :: PortParts(text, port, blanks, sign, digits)
  }

  ghost predicate PortParts(text: string, port: nat, blanks: string, sign: string, digits: string) {
    && text == blanks + sign + digits && sign in {"", "+", "-"} && digits != ""
    && (forall c | c in blanks :: c in BLANKS)
    && (forall i | 0 <= i < |digits| :: digits[i] in "0123456789")
    && Number(digits) == port && (sign == "-" ==> port == 0)
  }

  ghost predicate SpellsTcp(raw: string, t: Tcp) {
    && t.host != "" && ':' !in t.host
    && exists text :: raw == t.host + ":" + text && SpellsPort(text, t.port)
  }

  /** What a C string shows of `s`. */
  predicate Shown(t: string, s: string) { t <= s && NUL !in t && (t == s || s[|t|] == NUL) }

  /** A path stands for itself, but a leading \0 stands for the NUL of the abstract namespace. */
  predicate SpellsPath(text: string, path: string) {
    if "\\0" <= text then path != "" && path[0] == NUL && Shown(path[1..], text[2..]) else path == text
  }

  ghost predicate SpellsSocket(raw: string, k: Socket) {
    && k.host != "" && ':' !in k.host
    && exists text :: text != "" && raw == k.host + ":" + text && SpellsPath(text, k.path)
  }

  function TcpBlock(raw: string): string { "TCP: <<" + raw + ">>" }

  function SocketBlock(raw: string): string { "SOCKET: <<" + raw + ">>" }

  /** One block, or both in either order with a comma in between; a single block may be followed by
      a comma. A block ends with the first closing mark. */
  ghost predicate Spells(s: string, e: Endpoint) {
    match (e.tcp, e.socket)
    case (Some(t), None) => exists raw :: SpellsTcp(raw, t) && Clear(raw) && s in {TcpBlock(raw), TcpBlock(raw) + ", "}
    case (None, Some(k)) =>
      exists raw :: SpellsSocket(raw, k) && Clear(raw) && s in {SocketBlock(raw), SocketBlock(raw) + ", "}
    case (Some(t), Some(k)) =>
      exists r, q ::
        && SpellsTcp(r, t) && Clear(r) && SpellsSocket(q, k) && Clear(q)
        && s in {TcpBlock(r) + ", " + SocketBlock(q), SocketBlock(q) + ", " + TcpBlock(r)}
    case (None, None) => false
  }

  // ---- numbers ----

  lemma SpaceExactly(c: char)
    ensures IsSpace(c) <==> c in BLANKS
  {}

  lemma DigitExactly(c: char)
    ensures IsDigit(c) <==> c in "0123456789"
  {
    var d := "0123456789";
    if IsDigit(c) { assert c == d[c as int - '0' as int]; }
  }

  lemma {:induction false} SpacesAre(s: string)
    ensures forall i | 0 <= i < SpacesFrom(s) :: IsSpace(s[i])
    ensures SpacesFrom(s) < |s| ==> !IsSpace(s[SpacesFrom(s)])
  {
    if s != "" && IsSpace(s[0]) {
      SpacesAre(s[1..]);
      forall i | 0 <= i < SpacesFrom(s) ensures IsSpace(s[i]) { if i > 0 { assert s[i] == s[1..][i - 1]; } }
    }
  }

  lemma {:induction false} SpacesSkipped(blanks: string, rest: string)
    requires (forall c | c in blanks :: IsSpace(c)) && (rest == "" || !IsSpace(rest[0]))
    ensures SpacesFrom(blanks + rest) == |blanks|
  {
    if blanks == "" {
      assert blanks + rest == rest;
    } else {
      assert (blanks + rest)[1..] == blanks[1..] + rest && blanks[0] in blanks;
      SpacesSkipped(blanks[1..], rest);
    }
  }

  lemma PortRead(text: string, port: nat)
    requires port <= 65535 && StoI(text) == Some((port, |text|))
    ensures SpellsPort(text, port)
  {
    hide Number, SpacesFrom, DigitsFrom, IsDigit;
    var sp := SpacesFrom(text);
    var n := if sp < |text| && text[sp] in "+-" then 1 else 0;
    var blanks, sign, digits := text[..sp], text[sp..sp + n], text[sp + n..];
    DigitsAre(digits);
    assert digits[..|digits|] == digits;
    assert sign == if n == 0 then "" else [text[sp]];
    assert text == blanks + sign + digits;
    PortPartsAre(text, blanks, digits);
    assert PortParts(text, port, blanks, sign, digits);
  }

  lemma PortPartsAre(text: string, blanks: string, digits: string)
    requires blanks == text[..SpacesFrom(text)] && forall i | 0 <= i < |digits| :: IsDigit(digits[i])
    ensures forall c | c in blanks :: c in BLANKS
    ensures forall i | 0 <= i < |digits| :: digits[i] in "0123456789"
  {
    SpacesAre(text);
    forall c | c in blanks ensures c in BLANKS { SpaceExactly(c); }
    forall i | 0 <= i < |digits| ensures digits[i] in "0123456789" { DigitExactly(digits[i]); }
  }

  lemma PortSpelled(text: string, port: nat)
    requires SpellsPort(text, port)
    ensures StoI(text) == Some((port, |text|))
  {
    hide Number, SpacesFrom, DigitsFrom;
    var blanks: string, sign: string, digits: string :| PortParts(text, port, blanks, sign, digits);
    forall i | 0 <= i < |digits| ensures IsDigit(digits[i]) { DigitExactly(digits[i]); }
    PortSplit(blanks, sign, digits);
    AllDigits(digits);
    assert digits[..|digits|] == digits;
  }

  lemma PortSplit(blanks: string, sign: string, digits: string)
    requires (forall c | c in blanks :: c in BLANKS) && sign in {"", "+", "-"}
    requires digits != "" && IsDigit(digits[0])
    ensures var text := blanks + sign + digits;
            && SpacesFrom(text) == |blanks| < |text| && text[|blanks| + |sign|..] == digits
            && text[|blanks|] == (if sign == "" then digits[0] else sign[0])
            && (text[|blanks|] in "+-" <==> sign != "")
  {
    var rest := sign + digits;
    assert rest[0] == if sign == "" then digits[0] else sign[0];
    forall c | c in blanks ensures IsSpace(c) { SpaceExactly(c); }
    assert !IsSpace(rest[0]);
    SpacesSkipped(blanks, rest);
    assert blanks + sign + digits == blanks + rest;
  }

  // ---- host and rest ----

  lemma TcpExactly(raw: string, t: Tcp)
    ensures ParseTcp(raw) == Some(t) <==> SpellsTcp(raw, t)
  {
    hide StoI, SpellsPort;
    if ParseTcp(raw) == Some(t) {
      var text := raw[|t.host| + 1..];
      TcpFound(raw, t);
      assert raw == t.host + ":" + text;
      PortRead(text, t.port);
    }
    if SpellsTcp(raw, t) {
      var text :| raw == t.host + ":" + text && SpellsPort(text, t.port);
      ColonAt(t.host, text);
      SplitBack(t.host, text);
      PortSpelled(text, t.port);
      PortNotEmpty(text, t.port);
    }
  }

  lemma PortNotEmpty(text: string, port: nat)
    requires SpellsPort(text, port)
    ensures text != "" && port <= 65535
  {}

  lemma {:induction false} ShownExactly(t: string, s: string)
    ensures CString(s) == t <==> Shown(t, s)
  {
    if s == "" || s[0] == NUL {
      assert Shown(t, s) ==> t == "" by { if t != "" && t <= s { assert t[0] == s[0] && t[0] in t; } }
    } else {
      if t != "" { ShownExactly(t[1..], s[1..]); }
      assert t != "" && t[0] == s[0] ==> t == [s[0]] + t[1..] && s == [s[0]] + s[1..];
      assert t != "" && t[0] == s[0] ==> (t <= s <==> t[1..] <= s[1..]);
    }
  }

  lemma PathExactly(text: string, path: string)
    ensures UnescapePath(text) == path <==> SpellsPath(text, path)
  {
    if |text| >= 2 && text[0] == '\\' && text[1] == '0' {
      assert "\\0" <= text;
      if path != "" { ShownExactly(path[1..], text[2..]); }
      assert path != "" && path[0] == NUL ==> path == [NUL] + path[1..];
    }
  }

  lemma SocketExactly(raw: string, k: Socket)
    ensures ParseSocket(raw) == Some(k) <==> SpellsSocket(raw, k)
  {
    hide UnescapePath, SpellsPath;
    if ParseSocket(raw) == Some(k) {
      SocketFound(raw, k);
      var text := raw[|k.host| + 1..];
      assert raw == k.host + ":" + text;
      PathExactly(text, k.path);
    }
    if SpellsSocket(raw, k) {
      var text :| text != "" && raw == k.host + ":" + text && SpellsPath(text, k.path);
      ColonAt(k.host, text);
      SplitBack(k.host, text);
      PathExactly(text, k.path);
    }
  }

  // ---- blocks ----

  /** A block that is read has the given opening, a clear text and the closing mark. */
  lemma BlockRead(s: string, i: nat, open: string, raw: string, next: nat)
    requires i <= |s| && Block(s, i, open) == Some((raw, next))
    ensures Clear(raw) && next <= |s| && s == s[..i] + open + raw + ">>" + s[next..]
    ensures next == i + |open + raw| + 2
  {
    var from := i + |open|;
    assert s[from..next] == raw + ">>";
    forall k | 0 <= k < |raw| ensures raw[k] == s[from + k] {}
  }

  /** A block that stands there is read. */
  lemma BlockStands(before: string, open: string, raw: string, after: string)
    requires Clear(raw)
    ensures Block(before + open + raw + ">>" + after, |before|, open) == Some((raw, |before + open + raw| + 2))
  {
    hide Block, Clear, Closes;
    var r, next := BlockOf(before, open, raw, after);
  }

  // ---- the whole text ----

  /** The block behind a comma, up to the end. */
  lemma SecondRead(s: string, first: string, open: string, raw: string)
    requires first <= s && MoreAt(s, |first|) && Block(s, |first| + 2, open) == Some((raw, |s|))
    ensures Clear(raw) && s == first + ", " + (open + raw + ">>")
  {
    hide Block, Clear;
    BlockRead(s, |first| + 2, open, raw, |s|);
    assert s[..|first| + 2] == first + ", " && s[|s|..] == "";
  }

  lemma TcpFirstRead(s: string, raw: string, next: nat, e: Endpoint)
    requires Block(s, 0, "TCP: <<") == Some((raw, next)) && Parse(s) == Some(e)
    ensures Spells(s, e)
  {
    hide Block, ParseTcp, ParseSocket, Clear, SpellsTcp, SpellsSocket, TcpBlock, SocketBlock;
    FirstRead(s, "TCP: <<", raw, next);
    TcpExactly(raw, ParseTcp(raw).value);
    BlockTexts(raw);
    if next != |s| && next + 2 != |s| {
      var q := Block(s, next + 2, "SOCKET: <<").value.0;
      SecondRead(s, TcpBlock(raw), "SOCKET: <<", q);
      SocketExactly(q, ParseSocket(q).value);
      BlockTexts(q);
    }
  }

  lemma BlockTexts(raw: string)
    ensures TcpBlock(raw) == "TCP: <<" + raw + ">>" && SocketBlock(raw) == "SOCKET: <<" + raw + ">>"
  {}

  lemma FirstRead(s: string, open: string, raw: string, next: nat)
    requires Block(s, 0, open) == Some((raw, next))
    ensures var first := open + raw + ">>";
            && Clear(raw) && next == |first| <= |s| && first <= s && (next == |s| ==> s == first)
            && (next + 2 == |s| && MoreAt(s, next) ==> s == first + ", ")
  {
    hide Block, Clear;
    BlockRead(s, 0, open, raw, next);
    assert s == open + raw + ">>" + s[next..];
    if next + 2 == |s| { assert s[next..next + 2] == s[next..]; }
  }

  lemma SocketFirstRead(s: string, raw: string, next: nat, e: Endpoint)
    requires Block(s, 0, "TCP: <<") == None && Block(s, 0, "SOCKET: <<") == Some((raw, next)) && Parse(s) == Some(e)
    ensures Spells(s, e)
  {
    hide Block, ParseTcp, ParseSocket, Clear, SpellsTcp, SpellsSocket, TcpBlock, SocketBlock;
    FirstRead(s, "SOCKET: <<", raw, next);
    SocketExactly(raw, ParseSocket(raw).value);
    BlockTexts(raw);
    if next != |s| && next + 2 != |s| {
      var q := Block(s, next + 2, "TCP: <<").value.0;
      SecondRead(s, SocketBlock(raw), "TCP: <<", q);
      TcpExactly(q, ParseTcp(q).value);
      BlockTexts(q);
    }
  }

  /** Texts that start with a TCP block. */
  lemma TcpFirstStands(raw: string, t: Tcp, after: string)
    requires SpellsTcp(raw, t) && Clear(raw)
    ensures var s := TcpBlock(raw) + after;
            && Block(s, 0, "TCP: <<") == Some((raw, |TcpBlock(raw)|)) && ParseTcp(raw) == Some(t)
  {
    hide Block, ParseTcp, Clear, SpellsTcp;
    TcpExactly(raw, t);
    BlockStands("", "TCP: <<", raw, after);
    assert "" + "TCP: <<" + raw + ">>" + after == TcpBlock(raw) + after;
  }

  lemma SocketFirstStands(raw: string, k: Socket, after: string)
    requires SpellsSocket(raw, k) && Clear(raw)
    ensures var s := SocketBlock(raw) + after;
            && Block(s, 0, "TCP: <<") == None
            && Block(s, 0, "SOCKET: <<") == Some((raw, |SocketBlock(raw)|)) && ParseSocket(raw) == Some(k)
  {
    hide Block, ParseSocket, Clear, SpellsSocket;
    NotTcp(SocketBlock(raw) + after);
    SocketExactly(raw, k);
    BlockStands("", "SOCKET: <<", raw, after);
    assert "" + "SOCKET: <<" + raw + ">>" + after == SocketBlock(raw) + after;
  }

  lemma TcpSecondStands(first: string, raw: string, t: Tcp)
    requires SpellsTcp(raw, t) && Clear(raw)
    ensures ParseTcpAt(first + ", " + TcpBlock(raw), |first| + 2) == Some(t)
  {
    hide Block, ParseTcp, Clear, SpellsTcp;
    TcpExactly(raw, t);
    BlockStands(first + ", ", "TCP: <<", raw, "");
    assert first + ", " + "TCP: <<" + raw + ">>" + "" == first + ", " + TcpBlock(raw);
  }

  lemma SocketSecondStands(first: string, raw: string, k: Socket)
    requires SpellsSocket(raw, k) && Clear(raw)
    ensures ParseSocketAt(first + ", " + SocketBlock(raw), |first| + 2) == Some(k)
  {
    hide Block, ParseSocket, Clear, SpellsSocket;
    SocketExactly(raw, k);
    BlockStands(first + ", ", "SOCKET: <<", raw, "");
    assert first + ", " + "SOCKET: <<" + raw + ">>" + "" == first + ", " + SocketBlock(raw);
  }

  lemma Comma(first: string, second: string)
    ensures MoreAt(first + ", " + second, |first|) && MoreAt(first + ", ", |first|)
    ensures first + "" == first && first + (", " + second) == first + ", " + second
  {
    var s, t := first + ", " + second, first + ", ";
    assert s[|first|..|first| + 2] == ", " && t[|first|..|first| + 2] == ", ";
  }

  lemma TcpSpelled(s: string, t: Tcp)
    requires Spells(s, Endpoint(Some(t), None))
    ensures Parse(s) == Some(Endpoint(Some(t), None))
  {
    hide Block, ParseTcp, ParseSocket, ParseSocketAt, Clear, SpellsTcp, SpellsSocket, TcpBlock, SocketBlock;
    var raw :| SpellsTcp(raw, t) && Clear(raw) && s in {TcpBlock(raw), TcpBlock(raw) + ", "};
    Comma(TcpBlock(raw), "");
    TcpFirstStands(raw, t, "");
    TcpFirstStands(raw, t, ", ");
  }

  lemma SocketSpelled(s: string, k: Socket)
    requires Spells(s, Endpoint(None, Some(k)))
    ensures Parse(s) == Some(Endpoint(None, Some(k)))
  {
    hide Block, ParseTcp, ParseSocket, ParseTcpAt, Clear, SpellsTcp, SpellsSocket, TcpBlock, SocketBlock;
    var raw :| SpellsSocket(raw, k) && Clear(raw) && s in {SocketBlock(raw), SocketBlock(raw) + ", "};
    Comma(SocketBlock(raw), "");
    SocketFirstStands(raw, k, "");
    SocketFirstStands(raw, k, ", ");
  }

  lemma TcpThenSocket(r: string, t: Tcp, q: string, k: Socket)
    requires SpellsTcp(r, t) && Clear(r) && SpellsSocket(q, k) && Clear(q)
    ensures Parse(TcpBlock(r) + ", " + SocketBlock(q)) == Some(Endpoint(Some(t), Some(k)))
  {
    hide Block, ParseTcp, ParseSocket, ParseSocketAt, ParseTcpAt, Clear, SpellsTcp, SpellsSocket, TcpBlock, SocketBlock;
    Lengths(r, q);
    Comma(TcpBlock(r), SocketBlock(q));
    TcpFirstStands(r, t, ", " + SocketBlock(q));
    SocketSecondStands(TcpBlock(r), q, k);
  }

  lemma SocketThenTcp(r: string, t: Tcp, q: string, k: Socket)
    requires SpellsTcp(r, t) && Clear(r) && SpellsSocket(q, k) && Clear(q)
    ensures Parse(SocketBlock(q) + ", " + TcpBlock(r)) == Some(Endpoint(Some(t), Some(k)))
  {
    hide Block, ParseTcp, ParseSocket, ParseSocketAt, ParseTcpAt, Clear, SpellsTcp, SpellsSocket, TcpBlock, SocketBlock;
    Lengths(r, q);
    Comma(SocketBlock(q), TcpBlock(r));
    SocketFirstStands(q, k, ", " + TcpBlock(r));
    TcpSecondStands(SocketBlock(q), r, t);
  }

  lemma Lengths(r: string, q: string)
    ensures |TcpBlock(r)| > 0 && |SocketBlock(q)| > 0
  {}

  lemma BothSpelled(s: string, t: Tcp, k: Socket)
    requires Spells(s, Endpoint(Some(t), Some(k)))
    ensures Parse(s) == Some(Endpoint(Some(t), Some(k)))
  {
    hide Parse, Clear, SpellsTcp, SpellsSocket, TcpBlock, SocketBlock;
    var r, q :| SpellsTcp(r, t) && Clear(r) && SpellsSocket(q, k) && Clear(q)
                && s in {TcpBlock(r) + ", " + SocketBlock(q), SocketBlock(q) + ", " + TcpBlock(r)};
    TcpThenSocket(r, t, q, k);
    SocketThenTcp(r, t, q, k);
  }

  /** The parser reads exactly the texts that spell an endpoint, and reads the endpoint they spell. */
  lemma ParseExactly(s: string, e: Endpoint)
    ensures Parse(s) == Some(e) <==> Spells(s, e)
  {
    hide Block, ParseTcp, ParseSocket, ParseSocketAt, ParseTcpAt, Clear, SpellsTcp, SpellsSocket, TcpBlock, SocketBlock;
    if Parse(s) == Some(e) {
      var b := Block(s, 0, "TCP: <<");
      if b.Some? {
        TcpFirstRead(s, b.value.0, b.value.1, e);
      } else {
        var c := Block(s, 0, "SOCKET: <<");
        SocketFirstRead(s, c.value.0, c.value.1, e);
      }
    }
    if Spells(s, e) {
      match (e.tcp, e.socket)
      case (Some(t), None) => TcpSpelled(s, t);
      case (None, Some(k)) => SocketSpelled(s, k);
      case (Some(t), Some(k)) => BothSpelled(s, t, k);
    }
  }

  // ---- what is printed ----

  /** A TCP endpoint is printed with its port as the decimal numeral without leading zeros. */
  lemma PrintedTcp(host: string, digits: string)
    requires digits != "" && (digits[0] != '0' || digits == "0")
    requires forall i | 0 <= i < |digits| :: IsDigit(digits[i])
    ensures Print(Endpoint(Some(Tcp(host, Number(digits))), None)) == Some("TCP: <<" + host + ":" + digits + ">>")
  {
    hide Decimal, Number;
    OnlyNumeral(digits);
    assert "TCP: <<" + (host + ":" + digits) + ">>" == "TCP: <<" + host + ":" + digits + ">>";
  }

  /** A socket is printed with its path, a leading NUL as \\0, and what a C string shows of the rest. */
  lemma PrintedSocket(host: string, path: string, shown: string)
    requires path != "" && path[0] == NUL ==> Shown(shown, path[1..])
    ensures Print(Endpoint(None, Some(Socket(host, path)))) ==
              Some("SOCKET: <<" + host + ":" + (if path != "" && path[0] == NUL then "\\0" + shown else path) + ">>")
  {
    if path != "" && path[0] == NUL { ShownExactly(shown, path[1..]); }
    var text := EscapePath(path);
    assert "SOCKET: <<" + (host + ":" + text) + ">>" == "SOCKET: <<" + host + ":" + text + ">>";
  }

  /** Of both, the TCP endpoint comes first. */
  lemma PrintedBoth(t: Tcp, k: Socket)
    ensures var one, two := Print(Endpoint(Some(t), None)), Print(Endpoint(None, Some(k)));
            && one.Some? && two.Some?
            && Print(Endpoint(Some(t), Some(k))) == Some(one.value + ", " + two.value)
  {
    var a, b := PrintTcp(t), PrintSocket(k);
    assert "TCP: <<" + a + ">>, SOCKET: <<" + b + ">>" == "TCP: <<" + a + ">>" + ", " + ("SOCKET: <<" + b + ">>");
  }
}
