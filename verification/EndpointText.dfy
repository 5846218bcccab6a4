/** src/logging: the text form of logging endpoints, its parser, and when they are inverse. */
module EndpointText {
  import opened Wrappers

  const NUL: char := '\0'

  datatype Tcp = Tcp(host: string, port: nat)

  /** boost::asio's local endpoint is its path; a leading NUL marks the abstract namespace. */
  datatype Socket = Socket(host: string, path: string)

  datatype Endpoint = Endpoint(tcp: Option<Tcp>, socket: Option<Socket>)

  // ---- printing ----

  function Digit(d: nat): char
    requires d < 10
  {
    "0123456789"[d]
  }

  /** std::to_string of an unsigned short */
  function Decimal(n: nat): (s: string)
    ensures s != ""
  {
    if n < 10 then [Digit(n)] else Decimal(n / 10) + [Digit(n % 10)]
  }

  /** What std::string keeps of a C string: everything before the first NUL. */
  function CString(s: string): string {
    if s == "" || s[0] == NUL then "" else [s[0]] + CString(s[1..])
  }

  function PrintTcp(t: Tcp): string { t.host + ":" + Decimal(t.port) }

  function EscapePath(path: string): string {
    if path != "" && path[0] == NUL then "\\0" + CString(path[1..]) else path
  }

  function PrintSocket(s: Socket): string { s.host + ":" + EscapePath(s.path) }

  /** endpoint::to_string; a default constructed endpoint has no text. */
  function Print(e: Endpoint): Option<string> {
    match (e.tcp, e.socket)
    case (Some(t), Some(s)) => Some("TCP: <<" + PrintTcp(t) + ">>, SOCKET: <<" + PrintSocket(s) + ">>")
    case (Some(t), None) => Some("TCP: <<" + PrintTcp(t) + ">>")
    case (None, Some(s)) => Some("SOCKET: <<" + PrintSocket(s) + ">>")
    case (None, None) => None
  }

  // ---- parsing ----

  /** Where the character first occurs, or the length. */
  function IndexOf(s: string, c: char): (i: nat)
    ensures i <= |s| && c !in s[..i] && (i < |s| ==> s[i] == c)
  {
    if s == "" || s[0] == c then 0
    else
      var i := 1 + IndexOf(s[1..], c);
      assert s[..i] == [s[0]] + s[1..][..i - 1];
      i
  }

  predicate IsSpace(c: char) { c == ' ' || '\t' <= c <= '\r' }

  predicate IsDigit(c: char) { '0' <= c <= '9' }

  function DigitsFrom(s: string): (n: nat)
    ensures n <= |s|
  {
    if s == "" || !IsDigit(s[0]) then 0 else 1 + DigitsFrom(s[1..])
  }

  function SpacesFrom(s: string): (n: nat)
    ensures n <= |s|
  {
    if s == "" || !IsSpace(s[0]) then 0 else 1 + SpacesFrom(s[1..])
  }

  function DigitValue(c: char): (d: nat)
    requires IsDigit(c)
    ensures d < 10 && c == Digit(d)
  {
    c as int - '0' as int
  }

  function Number(s: string): nat
    requires forall i | 0 <= i < |s| :: IsDigit(s[i])
  {
    if s == "" then 0 else Number(s[..|s| - 1]) * 10 + DigitValue(s[|s| - 1])
  }

  lemma {:induction false} DigitsAre(s: string)
    ensures forall i | 0 <= i < DigitsFrom(s) :: IsDigit(s[i])
  {
    if s != "" && IsDigit(s[0]) {
      DigitsAre(s[1..]);
      forall i | 0 <= i < DigitsFrom(s) ensures IsDigit(s[i]) {
        if i > 0 { assert s[i] == s[1..][i - 1]; }
      }
    }
  }

  const INT_MAX: int := 0x7fff_ffff

  /** std::stoi: the number and how many characters it took; None where it throws. */
  function StoI(s: string): Option<(int, nat)> {
    var sp := SpacesFrom(s);
    var sign := if sp < |s| && s[sp] in "+-" then 1 else 0;
    var rest := s[sp + sign..];
    var n := DigitsFrom(rest);
    DigitsAre(rest);
    var value: int := Number(rest[..n]);
    var signed: int := if sign == 1 && s[sp] == '-' then -value else value;
    if n == 0 || signed > INT_MAX || signed < -INT_MAX - 1 then None else Some((signed, sp + sign + n))
  }

  /** split of tcp_endpoint.cpp */
  function ParseTcp(raw: string): Option<Tcp> {
    var colon := IndexOf(raw, ':');
    if colon == |raw| || colon + 1 == |raw| || colon == 0 then None
    else
      var portString := raw[colon + 1..];
      match StoI(portString)
      case None => None
      case Some((port, pos)) =>
        if pos == |portString| && 0 <= port <= 0xffff then Some(Tcp(raw[..colon], port)) else None
  }

  function UnescapePath(s: string): string {
    if |s| >= 2 && s[0] == '\\' && s[1] == '0' then [NUL] + CString(s[2..]) else s
  }

  /** split of socket_endpoint.cpp */
  function ParseSocket(raw: string): Option<Socket> {
    var colon := IndexOf(raw, ':');
    if colon == |raw| || colon + 1 == |raw| || colon == 0 then None
    else Some(Socket(raw[..colon], UnescapePath(raw[colon + 1..])))
  }

  /** std::search for ">>" from i on */
  function FindClose(s: string, i: nat): (j: nat)
    requires i <= |s|
    ensures i <= j <= |s| && (j < |s| ==> j + 1 < |s| && s[j] == '>' && s[j + 1] == '>')
    ensures forall k | i <= k < j && k + 1 < |s| :: !(s[k] == '>' && s[k + 1] == '>')
    decreases |s| - i
  {
    if i + 1 >= |s| then |s|
    else if s[i] == '>' && s[i + 1] == '>' then i
    else FindClose(s, i + 1)
  }

  /** A block: the given opening, then everything before ">>", and the position after it. */
  function Block(s: string, i: nat, open: string): (r: Option<(string, nat)>)
    requires i <= |s|
    ensures r.Some? ==> r.value.1 <= |s|
  {
    if |s| - i < |open| || s[i..i + |open|] != open then None
    else
      var from := i + |open|;
      var j := FindClose(s, from);
      if j == |s| then None else Some((s[from..j], j + 2))
  }

  /** Reading the second block, which must reach the end. */
  function ParseSocketAt(s: string, i: nat): Option<Socket>
    requires i <= |s|
  {
    match Block(s, i, "SOCKET: <<")
    case None => None
    case Some((raw, next)) => if next == |s| then ParseSocket(raw) else None
  }

  function ParseTcpAt(s: string, i: nat): Option<Tcp>
    requires i <= |s|
  {
    match Block(s, i, "TCP: <<")
    case None => None
    case Some((raw, next)) => if next == |s| then ParseTcp(raw) else None
  }

  /** What follows the first block: its end, or a comma and more. */
  predicate MoreAt(s: string, i: nat)
    requires i <= |s|
  {
    |s| - i >= 2 && s[i..i + 2] == ", "
  }

  /** endpoint::endpoint (std::string); None where it throws. */
  function Parse(s: string): Option<Endpoint> {
    match Block(s, 0, "TCP: <<")
    case Some((raw, next)) =>
      (match ParseTcp(raw)
       case None => None
       case Some(t) =>
         if next == |s| || (MoreAt(s, next) && next + 2 == |s|) then Some(Endpoint(Some(t), None))
         else if !MoreAt(s, next) then None
         else match ParseSocketAt(s, next + 2) case None => None case Some(k) => Some(Endpoint(Some(t), Some(k))))
    case None =>
      match Block(s, 0, "SOCKET: <<")
      case None => None
      case Some((raw, next)) =>
        match ParseSocket(raw)
        case None => None
        case Some(k) =>
          if next == |s| || (MoreAt(s, next) && next + 2 == |s|) then Some(Endpoint(None, Some(k)))
          else if !MoreAt(s, next) then None
          else match ParseTcpAt(s, next + 2) case None => None case Some(t) => Some(Endpoint(Some(t), Some(k)))
  }

  // ---- numbers ----

  lemma {:induction false} DecimalReads(n: nat)
    ensures forall i | 0 <= i < |Decimal(n)| :: IsDigit(Decimal(n)[i])
    ensures Number(Decimal(n)) == n
  {
    if n >= 10 {
      DecimalReads(n / 10);
      assert Decimal(n)[..|Decimal(n)| - 1] == Decimal(n / 10);
    } else {
      assert Decimal(n)[..0] == "";
    }
  }

  /** No leading zero, except for zero itself. */
  lemma {:induction false} DecimalLeads(n: nat)
    ensures Decimal(0) == "0" && (n > 0 ==> Decimal(n)[0] != '0')
  {
    if n >= 10 { DecimalLeads(n / 10); }
  }

  lemma {:induction false} LeadingDigit(s: string)
    requires s != "" && s[0] != '0' && forall i | 0 <= i < |s| :: IsDigit(s[i])
    ensures Number(s) > 0
  {
    if |s| > 1 {
      LeadingDigit(s[..|s| - 1]);
    } else {
      assert s[..0] == "" && Number("") == 0;
    }
  }

  /** The decimal numeral of a number is the only one without a leading zero. */
  lemma {:induction false} OnlyNumeral(s: string)
    requires s != "" && (s[0] != '0' || s == "0") && forall i | 0 <= i < |s| :: IsDigit(s[i])
    ensures s == Decimal(Number(s))
  {
    var init, d := s[..|s| - 1], DigitValue(s[|s| - 1]);
    assert s == init + [s[|s| - 1]];
    if init == "" {
      assert Number(init) == 0;
    } else {
      OnlyNumeral(init);
      LeadingDigit(init);
      assert Number(s) / 10 == Number(init) && Number(s) % 10 == d;
    }
  }

  lemma {:induction false} AllDigits(s: string)
    requires forall i | 0 <= i < |s| :: IsDigit(s[i])
    ensures DigitsFrom(s) == |s|
  {
    if s != "" { AllDigits(s[1..]); }
  }

  lemma StoIOfDecimal(n: nat)
    requires n <= INT_MAX
    ensures StoI(Decimal(n)) == Some((n, |Decimal(n)|))
  {
    var s := Decimal(n);
    DecimalReads(n);
    AllDigits(s);
    assert IsDigit(s[0]) && SpacesFrom(s) == 0;
    assert s[0..] == s && s[..|s|] == s;
  }

  // ---- host, colon, rest ----

  lemma ColonAt(host: string, rest: string)
    requires ':' !in host
    ensures IndexOf(host + ":" + rest, ':') == |host|
  {
    assert (host + ":" + rest)[|host|] == ':';
  }

  lemma SplitBack(host: string, rest: string)
    ensures (host + ":" + rest)[..|host|] == host && (host + ":" + rest)[|host| + 1..] == rest
  {}

  lemma TcpReads(t: Tcp)
    requires t.port <= 0xffff && t.host != "" && ':' !in t.host
    ensures ParseTcp(PrintTcp(t)) == Some(t)
  {
    ColonAt(t.host, Decimal(t.port));
    SplitBack(t.host, Decimal(t.port));
    StoIOfDecimal(t.port);
  }

  /** Whatever was read, the text begins with the host that was found and a colon. */
  lemma TcpFound(raw: string, t: Tcp)
    requires ParseTcp(raw) == Some(t)
    ensures t.host != "" && ':' !in t.host && |t.host| < |raw| && raw[..|t.host|] == t.host
  {}

  lemma SocketReads(k: Socket)
    requires k.host != "" && ':' !in k.host && k.path != "" && PlainPath(k.path)
    ensures ParseSocket(PrintSocket(k)) == Some(k)
  {
    ColonAt(k.host, EscapePath(k.path));
    SplitBack(k.host, EscapePath(k.path));
    Unescaped(k.path);
  }

  lemma SocketFound(raw: string, k: Socket)
    requires ParseSocket(raw) == Some(k)
    ensures k.host != "" && ':' !in k.host && |k.host| + 1 < |raw| && raw[..|k.host|] == k.host
    ensures UnescapePath(raw[|k.host| + 1..]) == k.path
  {}

  // ---- abstract socket names ----

  /** Paths that survive the escape: no literal escape in front, and no further NUL after a
      leading one. */
  predicate PlainPath(path: string) {
    if path != "" && path[0] == NUL then NUL !in path[1..] else !(|path| >= 2 && path[0] == '\\' && path[1] == '0')
  }

  lemma {:induction false} CStringWhole(s: string)
    ensures |CString(s)| <= |s| && NUL !in CString(s)
    ensures |CString(s)| == |s| <==> NUL !in s
    ensures NUL !in s ==> CString(s) == s
  {
    if s != "" && s[0] != NUL { CStringWhole(s[1..]); }
  }

  lemma Unescaped(path: string)
    requires PlainPath(path)
    ensures UnescapePath(EscapePath(path)) == path
  {
    if path != "" && path[0] == NUL {
      CStringWhole(path[1..]);
      assert EscapePath(path)[2..] == path[1..];
    }
  }

  /** An initial part of the escaped path gives the path back only if it is all of it, and the
      path survives the escape. */
  lemma UnescapedOnly(path: string, part: string)
    requires part <= EscapePath(path) && UnescapePath(part) == path
    ensures part == EscapePath(path) && PlainPath(path)
  {
    if path != "" && path[0] == NUL {
      CStringWhole(path[1..]);
      if |part| >= 2 { CStringWhole(part[2..]); }
    } else if |part| >= 2 {
      CStringWhole(part[2..]);
    }
  }

  // ---- the closing mark ----

  /** The text contains the closing mark. */
  ghost predicate Closes(s: string) { exists k :: 0 <= k < |s| - 1 && s[k] == '>' && s[k + 1] == '>' }

  /** The first closing mark after the text is the one that was put there. */
  ghost predicate Clear(s: string) { !Closes(s) && (s == "" || s[|s| - 1] != '>') }

  lemma CloseFound(s: string, i: nat, t: string)
    requires i + |t| + 2 <= |s| && s[i..i + |t|] == t && s[i + |t|] == '>' && s[i + |t| + 1] == '>'
    ensures i <= FindClose(s, i) <= i + |t|
    ensures FindClose(s, i) == i + |t| <==> Clear(t)
  {
    var j := FindClose(s, i);
    forall k | 0 <= k < |t| ensures s[i + k] == t[k] { assert s[i + k] == s[i..i + |t|][k]; }
    if j == i + |t| {
      forall k | 0 <= k < |t| - 1 ensures !(t[k] == '>' && t[k + 1] == '>') {
        assert s[i + k] == t[k] && s[i + k + 1] == t[k + 1];
      }
      assert t != "" ==> s[i + (|t| - 1)] == t[|t| - 1];
    } else {
      var k := j - i;
      assert s[i + k] == t[k] && (k + 1 < |t| ==> s[i + (k + 1)] == t[k + 1]);
    }
  }

  lemma ClearJoin(host: string, rest: string)
    ensures Clear(host + ":" + rest) <==> !Closes(host) && Clear(rest)
  {
    var s, n := host + ":" + rest, |host|;
    if Closes(host) {
      var k :| 0 <= k < n - 1 && host[k] == '>' && host[k + 1] == '>';
      assert s[k] == host[k] && s[k + 1] == host[k + 1];
    }
    if Closes(rest) {
      var k :| 0 <= k < |rest| - 1 && rest[k] == '>' && rest[k + 1] == '>';
      assert s[n + 1 + k] == rest[k] && s[n + 1 + k + 1] == rest[k + 1];
    }
    if Closes(s) {
      var k :| 0 <= k < |s| - 1 && s[k] == '>' && s[k + 1] == '>';
      assert s[n] == ':';
      if k < n {
        assert s[k] == host[k] && s[k + 1] == host[k + 1];
      } else {
        assert s[k] == rest[k - n - 1] && s[k + 1] == rest[k - n];
      }
    }
    assert s[|s| - 1] == if rest == "" then ':' else rest[|rest| - 1];
  }

  lemma {:induction false} DecimalClear(n: nat)
    ensures Clear(Decimal(n))
  {
    DecimalReads(n);
    assert forall i | 0 <= i < |Decimal(n)| :: Decimal(n)[i] != '>';
  }

  lemma ClearEscaped(path: string)
    requires PlainPath(path)
    ensures Clear(EscapePath(path)) <==> Clear(path)
  {
    if path != "" && path[0] == NUL {
      var rest, esc := path[1..], EscapePath(path);
      CStringWhole(rest);
      assert path == [NUL] + rest && esc == "\\0" + rest;
      ClearAfter([NUL], rest);
      ClearAfter("\\0", rest);
    }
  }

  lemma ClearAfter(p: string, rest: string)
    requires p != "" && '>' !in p
    ensures Clear(p + rest) <==> Clear(rest)
  {
    var s, n := p + rest, |p|;
    if Closes(rest) {
      var k :| 0 <= k < |rest| - 1 && rest[k] == '>' && rest[k + 1] == '>';
      assert s[n + k] == rest[k] && s[n + k + 1] == rest[k + 1];
    }
    if Closes(s) {
      var k :| 0 <= k < |s| - 1 && s[k] == '>' && s[k + 1] == '>';
      assert s[k] == rest[k - n] && s[k + 1] == rest[k - n + 1];
    }
    assert s[|s| - 1] == if rest == "" then p[n - 1] else rest[|rest| - 1];
  }

  // ---- blocks ----

  /** What a block printed around `t` is read as: an initial part of `t` without a closing mark,
      and all of `t` exactly when it is clear. */
  lemma BlockOf(before: string, open: string, t: string, after: string) returns (raw: string, next: nat)
    ensures var s := before + open + t + ">>" + after; Block(s, |before|, open) == Some((raw, next))
    ensures raw <= t && !Closes(raw) && (raw == t <==> Clear(t))
    ensures Clear(t) ==> next == |before + open + t| + 2
  {
    var s, i := before + open + t + ">>" + after, |before + open|;
    BlockParts(before, open, t, after);
    raw, next := BlockIn(s, i, t);
    hide FindClose, Closes, Clear;
    assert i == |before| + |open|;
  }

  lemma BlockParts(before: string, open: string, t: string, after: string)
    ensures var s, i := before + open + t + ">>" + after, |before + open|;
            && i + |t| + 2 <= |s| && s[|before|..i] == open && s[i..i + |t|] == t
            && s[i + |t|] == '>' && s[i + |t| + 1] == '>'
  {}

  lemma BlockIn(s: string, i: nat, t: string) returns (raw: string, next: nat)
    requires i + |t| + 2 <= |s| && s[i..i + |t|] == t && s[i + |t|] == '>' && s[i + |t| + 1] == '>'
    ensures FindClose(s, i) < |s| && raw == s[i..FindClose(s, i)] && next == FindClose(s, i) + 2
    ensures raw <= t && !Closes(raw) && (raw == t <==> Clear(t))
    ensures Clear(t) ==> next == i + |t| + 2
  {
    CloseFound(s, i, t);
    var j := FindClose(s, i);
    raw, next := s[i..j], j + 2;
    assert raw == t[..j - i];
    forall k | 0 <= k < |raw| - 1 ensures !(raw[k] == '>' && raw[k + 1] == '>') {
      assert raw[k] == s[i + k] && raw[k + 1] == s[i + k + 1];
    }
  }

  /** Endpoints whose text reads back. */
  ghost predicate GoodHost(host: string) { host != "" && ':' !in host && !Closes(host) }

  ghost predicate GoodTcp(t: Tcp) { GoodHost(t.host) }

  ghost predicate GoodSocket(k: Socket) { GoodHost(k.host) && k.path != "" && PlainPath(k.path) && Clear(k.path) }

  lemma ClosesPrefix(p: string, s: string)
    requires p <= s && Closes(p)
    ensures Closes(s)
  {
    var k :| 0 <= k < |p| - 1 && p[k] == '>' && p[k + 1] == '>';
    assert s[k] == p[k] && s[k + 1] == p[k + 1];
  }

  lemma TcpBlockExactly(t: Tcp, raw: string)
    requires t.port <= 0xffff && raw <= PrintTcp(t) && !Closes(raw) && (raw == PrintTcp(t) <==> Clear(PrintTcp(t)))
    ensures ParseTcp(raw) == Some(t) <==> GoodTcp(t)
    ensures GoodTcp(t) ==> Clear(PrintTcp(t))
  {
    ClearJoin(t.host, Decimal(t.port));
    DecimalClear(t.port);
    hide ParseTcp, Closes, Decimal;
    if GoodTcp(t) { TcpReads(t); }
    if ParseTcp(raw) == Some(t) {
      TcpFound(raw, t);
      if Closes(t.host) { ClosesPrefix(t.host, raw); }
    }
  }

  lemma SocketBlockExactly(k: Socket, raw: string)
    requires raw <= PrintSocket(k) && !Closes(raw) && (raw == PrintSocket(k) <==> Clear(PrintSocket(k)))
    ensures ParseSocket(raw) == Some(k) <==> GoodSocket(k)
    ensures GoodSocket(k) ==> Clear(PrintSocket(k))
  {
    ClearJoin(k.host, EscapePath(k.path));
    hide ParseSocket, Closes, Clear;
    if PlainPath(k.path) { ClearEscaped(k.path); }
    if GoodSocket(k) { SocketReads(k); }
    if ParseSocket(raw) == Some(k) {
      SocketFound(raw, k);
      var rest := raw[|k.host| + 1..];
      SplitBack(k.host, EscapePath(k.path));
      assert rest <= EscapePath(k.path);
      UnescapedOnly(k.path, rest);
      assert |raw| == |PrintSocket(k)|;
    }
  }

  // ---- the whole text ----

  lemma NotTcp(s: string)
    requires s != "" && s[0] != 'T'
    ensures Block(s, 0, "TCP: <<") == None
  {
    if |s| >= 7 { assert s[0..7][0] == s[0]; }
  }

  /** A text that starts with a TCP block, by what follows it. */
  lemma TcpFirst(s: string, raw: string, next: nat)
    requires Block(s, 0, "TCP: <<") == Some((raw, next))
    ensures Parse(s).Some? ==> Parse(s).value.tcp == ParseTcp(raw)
    ensures next <= |s|
    ensures next == |s| && ParseTcp(raw).Some? ==> Parse(s) == Some(Endpoint(ParseTcp(raw), None))
    ensures ParseTcp(raw).Some? && MoreAt(s, next) && next + 2 < |s| ==>
              Parse(s) == match ParseSocketAt(s, next + 2)
                          case None => None
                          case Some(k) => Some(Endpoint(ParseTcp(raw), Some(k)))
  {
    hide ParseTcp, ParseSocket, FindClose;
  }

  lemma SocketFirst(s: string, raw: string, next: nat)
    requires Block(s, 0, "TCP: <<") == None && Block(s, 0, "SOCKET: <<") == Some((raw, next))
    ensures Parse(s).Some? ==> Parse(s).value.socket == ParseSocket(raw)
    ensures next == |s| && ParseSocket(raw).Some? ==> Parse(s) == Some(Endpoint(None, ParseSocket(raw)))
  {
    hide ParseTcp, ParseSocket, FindClose;
  }

  lemma TcpAlone(t: Tcp)
    requires t.port <= 0xffff
    ensures Parse("TCP: <<" + PrintTcp(t) + ">>") == Some(Endpoint(Some(t), None)) <==> GoodTcp(t)
  {
    hide Block, ParseTcp, Parse, PrintTcp, GoodTcp, Clear, Closes;
    var raw, next := BlockOf("", "TCP: <<", PrintTcp(t), "");
    var s := "TCP: <<" + PrintTcp(t) + ">>";
    assert "" + "TCP: <<" + PrintTcp(t) + ">>" + "" == s;
    TcpBlockExactly(t, raw);
    TcpFirst(s, raw, next);
  }

  lemma SocketAlone(k: Socket)
    ensures Parse("SOCKET: <<" + PrintSocket(k) + ">>") == Some(Endpoint(None, Some(k))) <==> GoodSocket(k)
  {
    hide Block, ParseSocket, Parse, PrintSocket, GoodSocket, Clear, Closes;
    var raw, next := BlockOf("", "SOCKET: <<", PrintSocket(k), "");
    var s := "SOCKET: <<" + PrintSocket(k) + ">>";
    assert "" + "SOCKET: <<" + PrintSocket(k) + ">>" + "" == s;
    SocketBlockExactly(k, raw);
    NotTcp(s);
    SocketFirst(s, raw, next);
  }

  /** The second block of a printed endpoint. */
  lemma SecondBlock(first: string, k: Socket)
    ensures var s := first + "SOCKET: <<" + PrintSocket(k) + ">>";
            ParseSocketAt(s, |first|) == Some(k) <==> GoodSocket(k)
  {
    hide Block, ParseSocket, PrintSocket, GoodSocket, Clear, Closes;
    var s := first + "SOCKET: <<" + PrintSocket(k) + ">>";
    var raw, next := BlockOf(first, "SOCKET: <<", PrintSocket(k), "");
    assert s + "" == s;
    SocketBlockExactly(k, raw);
  }

  lemma Both(t: Tcp, k: Socket)
    requires t.port <= 0xffff
    ensures var s := "TCP: <<" + PrintTcp(t) + ">>, SOCKET: <<" + PrintSocket(k) + ">>";
            Parse(s) == Some(Endpoint(Some(t), Some(k))) <==> GoodTcp(t) && GoodSocket(k)
  {
    hide Block, ParseTcp, ParseSocketAt, Parse, PrintTcp, PrintSocket, GoodTcp, GoodSocket, Clear, Closes;
    var pt, pk := PrintTcp(t), PrintSocket(k);
    var s, first := "TCP: <<" + pt + ">>, SOCKET: <<" + pk + ">>", "TCP: <<" + pt + ">>, ";
    var raw, next := BlockOf("", "TCP: <<", pt, ", SOCKET: <<" + pk + ">>");
    assert "" + "TCP: <<" + pt + ">>" + (", SOCKET: <<" + pk + ">>") == s;
    assert first + "SOCKET: <<" + pk + ">>" == s;
    TcpBlockExactly(t, raw);
    TcpFirst(s, raw, next);
    SecondBlock(first, k);
    assert s[|first| - 2..|first|] == ", ";
  }

  /** Reading the text of an endpoint gives the endpoint back exactly when every host is nonempty
      and free of ':' and ">>", and a socket's path is nonempty, does not contain or run into
      ">>", does not start with a literal \\0, and has no further NUL after a leading one. */
  lemma RoundTripExactly(e: Endpoint)
    requires (e.tcp.Some? ==> e.tcp.value.port <= 0xffff)
    ensures Print(e).Some? <==> e.tcp.Some? || e.socket.Some?
    ensures Print(e).Some? ==>
              (Parse(Print(e).value) == Some(e) <==>
               (e.tcp.Some? ==> GoodTcp(e.tcp.value)) && (e.socket.Some? ==> GoodSocket(e.socket.value)))
  {
    hide Parse, PrintTcp, PrintSocket, GoodTcp, GoodSocket;
    match (e.tcp, e.socket)
    case (Some(t), Some(k)) => Both(t, k);
    case (Some(t), None) => TcpAlone(t);
    case (None, Some(k)) => SocketAlone(k);
    case (None, None) =>
  }
}
