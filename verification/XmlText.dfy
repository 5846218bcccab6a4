/** Characters, escaping and entity references of external/rapidxml. Strings are the bytes of the
    source's char buffers; reading at the end of a text yields its zero terminator. */
module XmlText {
  import Words

  const NUL: char := 0 as char

  function Peek(s: string, i: nat): char { if i < |s| then s[i] else NUL }

  // ---- character classes (the lookup tables) ----

  predicate IsSpace(c: char) { c == ' ' || c == '\n' || c == '\r' || c == '\t' }

  predicate IsNameChar(c: char) { !IsSpace(c) && c != '/' && c != '>' && c != '?' && c != NUL }

  predicate IsAttrNameChar(c: char) { IsNameChar(c) && c != '<' && c != '=' && c != '!' }

  /** What ends a run of character data: '<', or the quote around an attribute value. */
  datatype Stop = AtTag | AtQuote(quote: char) {
    predicate Continues(c: char) {
      c != NUL && c != (if AtTag? then '<' else quote)
    }

    /** Characters that need no processing. */
    predicate Pure(c: char) { Continues(c) && c != '&' }
  }

  /** lookup_digits: the value of a digit in either base, 255 for anything else. */
  function DigitValue(c: char): nat {
    if '0' <= c <= '9' then c as nat - '0' as nat
    else if 'a' <= c <= 'f' then c as nat - 'a' as nat + 10
    else if 'A' <= c <= 'F' then c as nat - 'A' as nat + 10
    else 255
  }

  function SpanLen(p: char -> bool, s: string): (n: nat)
    ensures n <= |s|
  {
    if s == [] || !p(s[0]) then 0 else 1 + SpanLen(p, s[1..])
  }

  lemma {:induction false} SpanAll(p: char -> bool, s: string)
    ensures forall i | 0 <= i < SpanLen(p, s) :: p(s[i])
  {
    if s != [] && p(s[0]) {
      SpanAll(p, s[1..]);
      forall i | 0 <= i < SpanLen(p, s) ensures p(s[i]) {
        if i > 0 { assert s[i] == s[1..][i - 1]; }
      }
    }
  }

  function SkipSpace(s: string): (r: string)
    ensures |r| <= |s|
  {
    s[SpanLen(IsSpace, s)..]
  }

  datatype Parsed<+T> = Done(value: T, rest: string) | Fail(what: string)

  /** Put what was read before in front. */
  function Led<T>(front: seq<T>, r: Parsed<seq<T>>): Parsed<seq<T>> {
    if r.Done? then Done(front + r.value, r.rest) else r
  }

  // ---- numeric references ----

  /** The code spelled by the digits at the front of `s`, in 64-bit arithmetic. */
  function CodeOf(s: string, base: nat, code: nat): nat {
    if s == [] || DigitValue(s[0]) == 255 then code
    else CodeOf(s[1..], base, (code * base + DigitValue(s[0])) % Words.TWO_64)
  }

  function DigitCount(s: string): (n: nat)
    ensures n <= |s|
  {
    if s == [] || DigitValue(s[0]) == 255 then 0 else 1 + DigitCount(s[1..])
  }

  function Cont(x: nat): char { (0x80 + x % 64) as char }

  /** insert_coded_character: UTF-8, section 3 of RFC 3629; None above U+10FFFF. */
  function Utf8(code: nat): (bytes: string)
    ensures |bytes| <= 4 && (bytes == [] <==> code >= 0x110000)
  {
    if code < 0x80 then [code as char]
    else if code < 0x800 then [(0xC0 + code / 64) as char, Cont(code)]
    else if code < 0x10000 then [(0xE0 + code / 4096) as char, Cont(code / 64), Cont(code)]
    else if code < 0x110000 then [(0xF0 + code / 262144) as char, Cont(code / 4096), Cont(code / 64), Cont(code)]
    else []
  }

  predicate Tail(c: char) { 0x80 <= c as int <= 0xBF }

  /** One character by the syntax of section 4 of RFC 3629: the leading byte gives the length and
      bounds the byte after it, so that there are no overlong forms, no surrogates and nothing
      above U+10FFFF. */
  predicate ValidUtf8(bytes: string) {
    && bytes != []
    && var b := bytes[0] as int;
       if b <= 0x7F then |bytes| == 1
       else if 0xC2 <= b <= 0xDF then |bytes| == 2 && Tail(bytes[1])
       else if 0xE0 <= b <= 0xEF then
         && |bytes| == 3 && Tail(bytes[1]) && Tail(bytes[2])
         && (b == 0xE0 ==> 0xA0 <= bytes[1] as int) && (b == 0xED ==> bytes[1] as int <= 0x9F)
       else
         && 0xF0 <= b <= 0xF4 && |bytes| == 4 && Tail(bytes[1]) && Tail(bytes[2]) && Tail(bytes[3])
         && (b == 0xF0 ==> 0x90 <= bytes[1] as int) && (b == 0xF4 ==> bytes[1] as int <= 0x8F)
  }

  /** The character number of such a sequence: the bits of section 3 of RFC 3629. */
  function CodePoint(bytes: string): int
    requires 0 < |bytes| <= 4
  {
    var b := bytes[0] as int;
    if |bytes| == 1 then b
    else if |bytes| == 2 then b % 32 * 64 + bytes[1] as int % 64
    else if |bytes| == 3 then b % 16 * 4096 + bytes[1] as int % 64 * 64 + bytes[2] as int % 64
    else b % 8 * 262144 + bytes[1] as int % 64 * 4096 + bytes[2] as int % 64 * 64 + bytes[3] as int % 64
  }

  predicate Surrogate(code: nat) { 0xD800 <= code <= 0xDFFF }

  /** Leading byte and tails by their payload, and when they are valid. */
  lemma TwoBytes(a: nat, b: nat)
    requires a < 32 && b < 64
    ensures var bytes := [(0xC0 + a) as char, (0x80 + b) as char];
            CodePoint(bytes) == a * 64 + b && (ValidUtf8(bytes) <==> a >= 2)
  {}

  lemma ThreeBytes(a: nat, b: nat, c: nat)
    requires a < 16 && b < 64 && c < 64
    ensures var bytes := [(0xE0 + a) as char, (0x80 + b) as char, (0x80 + c) as char];
            && CodePoint(bytes) == a * 4096 + b * 64 + c
            && (ValidUtf8(bytes) <==> (a == 0 ==> b >= 32) && (a == 13 ==> b < 32))
  {}

  lemma FourBytes(a: nat, b: nat, c: nat, d: nat)
    requires a < 5 && b < 64 && c < 64 && d < 64
    ensures var bytes := [(0xF0 + a) as char, (0x80 + b) as char, (0x80 + c) as char, (0x80 + d) as char];
            && CodePoint(bytes) == a * 262144 + b * 4096 + c * 64 + d
            && (ValidUtf8(bytes) <==> (a == 0 ==> b >= 16) && (a == 4 ==> b < 16))
  {}

  lemma Sextets(code: nat)
    ensures code == code / 64 * 64 + code % 64
    ensures code / 64 == code / 4096 * 64 + code / 64 % 64
    ensures code / 4096 == code / 262144 * 64 + code / 4096 % 64
  {
    Words.DivTwice(code, 64, 64);
    Words.DivTwice(code, 4096, 64);
  }

  /** Every admitted code decodes from its bytes, which fit the 8-bit buffer. They are valid UTF-8
      for every code but the surrogates, which the parser lets through. */
  lemma Utf8Decodes(code: nat)
    requires code < 0x110000
    ensures CodePoint(Utf8(code)) == code
    ensures forall i | 0 <= i < |Utf8(code)| :: Utf8(code)[i] as int < 256
    ensures ValidUtf8(Utf8(code)) <==> !Surrogate(code)
  {
    hide CodePoint, ValidUtf8;
    var c1, c2, c3 := code / 64, code / 4096, code / 262144;
    Sextets(code);
    if code < 0x80 {
      OneByte(code);
    } else if code < 0x800 {
      TwoBytes(c1, code % 64);
    } else if code < 0x10000 {
      ThreeBytes(c2, c1 % 64, code % 64);
    } else {
      FourBytes(c3, c2 % 64, c1 % 64, code % 64);
    }
  }

  lemma OneByte(a: nat)
    requires a < 0x80
    ensures CodePoint([a as char]) == a && ValidUtf8([a as char])
  {}

  // ---- entity references ----

  /** What stands at an '&': nothing special, a reference of `len` characters, or an error. */
  datatype Ref = NoRef | Known(text: string, len: nat) | Bad(what: string)

  function Numeric(s: string, digitsAt: nat, base: nat): Ref
    requires digitsAt <= |s|
  {
    var digits := DigitCount(s[digitsAt..]);
    var bytes := Utf8(CodeOf(s[digitsAt..], base, 0));
    if bytes == [] then Bad("invalid numeric character entity")
    else if Peek(s, digitsAt + digits) != ';' then Bad("expected ;")
    else Known(bytes, digitsAt + digits + 1)
  }

  function RefAt(s: string): Ref
    requires s != [] && s[0] == '&'
  {
    match Peek(s, 1)
    case 'a' =>
      if Peek(s, 2) == 'm' && Peek(s, 3) == 'p' && Peek(s, 4) == ';' then Known("&", 5)
      else if Peek(s, 2) == 'p' && Peek(s, 3) == 'o' && Peek(s, 4) == 's' && Peek(s, 5) == ';' then Known("'", 6)
      else NoRef
    case 'q' =>
      if Peek(s, 2) == 'u' && Peek(s, 3) == 'o' && Peek(s, 4) == 't' && Peek(s, 5) == ';' then Known("\"", 6) else NoRef
    case 'g' =>
      if Peek(s, 2) == 't' && Peek(s, 3) == ';' then Known(">", 4) else NoRef
    case 'l' =>
      if Peek(s, 2) == 't' && Peek(s, 3) == ';' then Known("<", 4) else NoRef
    case '#' =>
      if Peek(s, 2) == 'x' then Numeric(s, 3, 16) else Numeric(s, 2, 10)
    case _ => NoRef
  }

  lemma RefLength(s: string)
    requires s != [] && s[0] == '&' && RefAt(s).Known?
    ensures 0 < RefAt(s).len <= |s|
    ensures 0 < |RefAt(s).text| < RefAt(s).len
  {
    if Peek(s, 1) == '#' {
      if Peek(s, 2) == 'x' {
        ReferenceIsLonger(s, 3, 16);
      } else {
        ReferenceIsLonger(s, 2, 10);
      }
    }
  }

  /** A code that takes two bytes or more needs at least two digits to spell. */
  lemma CodeNeedsDigits(s: string, base: nat)
    requires base == 10 || base == 16
    ensures CodeOf(s, base, 0) >= 0x80 ==> DigitCount(s) >= 2
  {
    if s != [] && DigitValue(s[0]) != 255 {
      assert CodeOf(s, base, 0) == CodeOf(s[1..], base, DigitValue(s[0]));
    }
  }

  lemma ReferenceIsLonger(s: string, digitsAt: nat, base: nat)
    requires 2 <= digitsAt <= |s| && (base == 10 || base == 16) && Numeric(s, digitsAt, base).Known?
    ensures 0 < |Numeric(s, digitsAt, base).text| <= digitsAt + DigitCount(s[digitsAt..])
    ensures Numeric(s, digitsAt, base).len <= |s|
    ensures Numeric(s, digitsAt, base).len == digitsAt + DigitCount(s[digitsAt..]) + 1
  {
    CodeNeedsDigits(s[digitsAt..], base);
  }

  /** Character data up to its stop, with references replaced: what the parser has to produce. */
  function Expand(stop: Stop, s: string): Parsed<string>
    decreases |s|
  {
    if !stop.Continues(Peek(s, 0)) then Done("", s)
    else if s[0] == '&' && !RefAt(s).NoRef? then
      if RefAt(s).Bad? then Fail(RefAt(s).what)
      else
        RefLength(s);
        Prepend(RefAt(s).text, Expand(stop, s[RefAt(s).len..]))
    else Prepend([s[0]], Expand(stop, s[1..]))
  }

  function Prepend(text: string, r: Parsed<string>): Parsed<string> {
    if r.Done? then Done(text + r.value, r.rest) else r
  }

  lemma {:induction false} ExpandRest(stop: Stop, s: string)
    requires Expand(stop, s).Done?
    ensures var r := Expand(stop, s);
            |r.rest| <= |s| && r.rest == s[|s| - |r.rest|..] && !stop.Continues(Peek(r.rest, 0))
    decreases |s|
  {
    if stop.Continues(Peek(s, 0)) {
      if s[0] == '&' && !RefAt(s).NoRef? {
        RefLength(s);
        ExpandRest(stop, s[RefAt(s).len..]);
      } else {
        ExpandRest(stop, s[1..]);
      }
    }
  }

  // ---- escaping ----

  function EscapeChar(c: char, noexpand: char): string {
    if c == noexpand then [c]
    else if c == '<' then "&lt;"
    else if c == '>' then "&gt;"
    else if c == '\'' then "&apos;"
    else if c == '"' then "&quot;"
    else if c == '&' then "&amp;"
    else [c]
  }

  /** copy_and_expand_chars */
  function Escape(text: string, noexpand: char): string {
    if text == [] then [] else EscapeChar(text[0], noexpand) + Escape(text[1..], noexpand)
  }

  predicate NulFree(s: string) { NUL !in s }

  /** Escaping produces no stop character, and expansion undoes it. */
  lemma {:induction false} ExpandUndoesEscape(stop: Stop, text: string, noexpand: char, rest: string)
    requires NulFree(text) && Quoting(stop, noexpand)
    ensures Expand(stop, Escape(text, noexpand) + rest) == Prepend(text, Expand(stop, rest))
  {
    hide Expand, EscapeChar, Quoting;
    if text == [] {
      assert Escape(text, noexpand) + rest == rest;
      if Expand(stop, rest).Done? { assert "" + Expand(stop, rest).value == Expand(stop, rest).value; }
    } else {
      var c, e := text[0], EscapeChar(text[0], noexpand);
      var tail := Escape(text[1..], noexpand) + rest;
      assert Escape(text, noexpand) + rest == e + tail;
      assert NUL !in text[1..];
      ExpandUndoesEscape(stop, text[1..], noexpand, rest);
      assert c in text;
      ExpandOne(stop, c, noexpand, tail);
      PrependTwice([c], text[1..], Expand(stop, rest));
      assert text == [c] + text[1..];
    }
  }

  lemma PrependTwice(a: string, b: string, r: Parsed<string>)
    ensures Prepend(a, Prepend(b, r)) == Prepend(a + b, r)
  {
    if r.Done? { assert a + (b + r.value) == (a + b) + r.value; }
  }

  /** The stops and exemptions the printer combines. */
  predicate Quoting(stop: Stop, noexpand: char) {
    && noexpand != '&' && noexpand != '<'
    && (stop.AtQuote? ==> (stop.quote == '"' || stop.quote == '\'') && noexpand != stop.quote)
  }

  lemma ExpandOne(stop: Stop, c: char, noexpand: char, tail: string)
    requires c != NUL && Quoting(stop, noexpand)
    ensures Expand(stop, EscapeChar(c, noexpand) + tail) == Prepend([c], Expand(stop, tail))
  {
    var e := EscapeChar(c, noexpand);
    var s := e + tail;
    assert s[0] == e[0] && s[|e|..] == tail;
    if |e| > 1 {
      EscapedRef(c, noexpand, tail);
      ExpandKnown(stop, s, [c], |e|);
    } else {
      ExpandPlain(stop, s);
    }
  }

  lemma ExpandKnown(stop: Stop, s: string, text: string, len: nat)
    requires s != [] && s[0] == '&' && stop.Continues('&') && len <= |s| && RefAt(s) == Known(text, len)
    ensures Expand(stop, s) == Prepend(text, Expand(stop, s[len..]))
  {
    hide RefAt;
  }

  lemma ExpandPlain(stop: Stop, s: string)
    requires s != [] && s[0] != '&' && stop.Continues(s[0])
    ensures Expand(stop, s) == Prepend([s[0]], Expand(stop, s[1..]))
  {}

  lemma EscapedRef(c: char, noexpand: char, tail: string)
    requires |EscapeChar(c, noexpand)| > 1
    ensures var e := EscapeChar(c, noexpand); RefAt(e + tail) == Known([c], |e|)
  {
    var e := EscapeChar(c, noexpand);
    var s := e + tail;
    assert s[0] == '&' && s[1] == e[1] && s[2] == e[2] && s[3] == e[3];
    assert |e| > 4 ==> s[4] == e[4];
    assert |e| > 5 ==> s[5] == e[5];
  }
}
