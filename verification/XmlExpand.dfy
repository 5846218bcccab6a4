/** skip and skip_and_expand_character_refs of external/rapidxml/rapidxml.hpp: entity expansion
    in the buffer that is being read. */
module XmlExpand {
  import opened Wrappers
  import Words
  import opened XmlText

  /** A zero-terminated buffer. */
  predicate Terminated(buf: array<char>)
    reads buf
  {
    buf.Length > 0 && buf[buf.Length - 1] == NUL
  }

  /** Nothing outside [lo, hi) was written. */
  predicate Kept(b: string, b': string, lo: nat, hi: nat) {
    |b| == |b'| && forall i | 0 <= i < |b| && (i < lo || hi <= i) :: b'[i] == b[i]
  }

  lemma KeptBySlices(b: string, b': string, lo: nat, hi: nat)
    requires |b| == |b'| && lo <= hi <= |b| && b'[..lo] == b[..lo] && b'[hi..] == b[hi..]
    ensures Kept(b, b', lo, hi)
  {
    forall i | 0 <= i < |b| && (i < lo || hi <= i) ensures b'[i] == b[i] {
      if i < lo { assert b'[..lo][i] == b[..lo][i]; } else { assert b'[hi..][i - hi] == b[hi..][i - hi]; }
    }
  }

  lemma SpanAt(p: char -> bool, s: string, i: nat)
    requires i < |s| && (forall k | 0 <= k < i :: p(s[k])) && !p(s[i])
    ensures SpanLen(p, s) == i
    decreases i
  {
    if i > 0 { SpanAt(p, s[1..], i - 1); }
  }

  method Skip(buf: array<char>, p: char -> bool, start: nat) returns (text: nat)
    requires Terminated(buf) && start < buf.Length && !p(NUL)
    ensures start <= text < buf.Length && text == start + SpanLen(p, buf[start..])
    ensures buf[text..] == buf[start..][SpanLen(p, buf[start..])..] && !p(buf[text])
  {
    text := start;
    while p(buf[text])
      invariant start <= text < buf.Length
      invariant forall k | start <= k < text :: p(buf[k])
      decreases buf.Length - text
    {
      text := text + 1;
    }
    SpanAt(p, buf[start..], text - start);
  }

  method SkipBlanks(buf: array<char>, start: nat) returns (text: nat)
    requires Terminated(buf) && start < buf.Length
    ensures start <= text < buf.Length && buf[text..] == SkipSpace(buf[start..])
  {
    text := Skip(buf, IsSpace, start);
  }

  lemma {:induction false} PureCopied(stop: Stop, s: string, n: nat)
    requires n <= |s| && forall k | 0 <= k < n :: stop.Pure(s[k])
    ensures Expand(stop, s) == Prepend(s[..n], Expand(stop, s[n..]))
    decreases n
  {
    if n == 0 {
      assert s[0..] == s && s[..0] == "";
      if Expand(stop, s).Done? { assert "" + Expand(stop, s).value == Expand(stop, s).value; }
    } else {
      assert forall k | 0 <= k < n - 1 :: s[1..][k] == s[k + 1];
      PureCopied(stop, s[1..], n - 1);
      assert s[1..][n - 1..] == s[n..] && s[..n] == [s[0]] + s[1..][..n - 1];
      PrependTwice([s[0]], s[1..][..n - 1], Expand(stop, s[n..]));
    }
  }

  /** One step of expansion at a character that continues the data. */
  lemma ExpandStep(stop: Stop, s: string, text: string, len: nat)
    requires s != [] && stop.Continues(s[0])
    requires if s[0] == '&' && !RefAt(s).NoRef? then RefAt(s) == Known(text, len) else text == [s[0]] && len == 1
    ensures 0 < len <= |s| && 0 < |text| <= len
    ensures Expand(stop, s) == Prepend(text, Expand(stop, s[len..]))
  {
    if s[0] == '&' && RefAt(s).Known? { RefLength(s); }
  }

  method ReadDigits(buf: array<char>, start: nat, base: nat) returns (code: nat, src: nat)
    requires Terminated(buf) && start < buf.Length
    ensures code == CodeOf(buf[start..], base, 0) && src == start + DigitCount(buf[start..]) < buf.Length
  {
    code, src := 0, start;
    while DigitValue(buf[src]) != 255
      invariant start <= src < buf.Length
      invariant CodeOf(buf[start..], base, 0) == CodeOf(buf[src..], base, code)
      invariant DigitCount(buf[start..]) == src - start + DigitCount(buf[src..])
      decreases buf.Length - src
    {
      assert buf[src..][1..] == buf[src + 1..];
      code := (code * base + DigitValue(buf[src])) % Words.TWO_64;
      src := src + 1;
    }
  }

  /** insert_coded_character; the bytes are written from the last to the first. */
  method InsertCodedCharacter(buf: array<char>, dest: nat, code: nat) returns (r: Result<nat, string>)
    requires dest + |Utf8(code)| <= buf.Length
    modifies buf
    ensures Kept(old(buf[..]), buf[..], dest, dest + |Utf8(code)|)
    ensures r == if Utf8(code) == [] then Err("invalid numeric character entity") else Ok(dest + |Utf8(code)|)
    ensures forall k | 0 <= k < |Utf8(code)| :: buf[dest + k] == Utf8(code)[k]
  {
    ghost var bytes := Utf8(code);
    if code < 0x80 {
      buf[dest] := code as char;
      r := Ok(dest + 1);
    } else if code < 0x800 {
      buf[dest + 1] := Cont(code);
      buf[dest] := (0xC0 + code / 64) as char;
      r := Ok(dest + 2);
    } else if code < 0x10000 {
      buf[dest + 2] := Cont(code);
      buf[dest + 1] := Cont(code / 64);
      buf[dest] := (0xE0 + code / 4096) as char;
      r := Ok(dest + 3);
    } else if code < 0x110000 {
      buf[dest + 3] := Cont(code);
      buf[dest + 2] := Cont(code / 64);
      buf[dest + 1] := Cont(code / 4096);
      buf[dest] := (0xF0 + code / 262144) as char;
      r := Ok(dest + 4);
    } else {
      r := Err("invalid numeric character entity");
    }
  }

  /** The five named references: the character and the length of the one at `src`, or length 0. */
  method NamedReference(buf: array<char>, src: nat) returns (c: char, len: nat)
    requires Terminated(buf) && src < buf.Length && buf[src] == '&'
    ensures len == 0 ==> buf[src + 1] == '#' || RefAt(buf[src..]).NoRef?
    ensures len > 0 ==> RefAt(buf[src..]) == Known([c], len)
    ensures src + 1 < buf.Length && src + len < buf.Length
  {
    ghost var s := buf[src..];
    c, len := NUL, 0;
    match buf[src + 1]
    case 'a' =>
      if buf[src + 2] == 'm' {
        if buf[src + 3] == 'p' && buf[src + 4] == ';' { c, len := '&', 5; }
      } else if buf[src + 2] == 'p' && buf[src + 3] == 'o' && buf[src + 4] == 's' && buf[src + 5] == ';' {
        c, len := '\'', 6;
      }
    case 'q' =>
      if buf[src + 2] == 'u' && buf[src + 3] == 'o' && buf[src + 4] == 't' && buf[src + 5] == ';' { c, len := '"', 6; }
    case 'g' =>
      if buf[src + 2] == 't' && buf[src + 3] == ';' { c, len := '>', 4; }
    case 'l' =>
      if buf[src + 2] == 't' && buf[src + 3] == ';' { c, len := '<', 4; }
    case _ =>
  }

  /** What one step of the loop at `src` leaves behind: the text it emitted lies in
      [dest, dest'), and nothing at or after src' was touched. */
  predicate Stepped(b: string, b': string, stop: Stop, dest: nat, src: nat, dest': nat, src': nat) {
    && dest <= src < src' && dest <= dest' <= src' < |b| && |b'| == |b|
    && b'[..dest] == b[..dest] && b'[src'..] == b[src'..]
    && Expand(stop, b[src..]) == Prepend(b'[dest..dest'], Expand(stop, b[src'..]))
  }

  /** A numeric reference in terms of its digits; the bytes it emits fit into the characters
      read before the ';'. */
  lemma NumericOutcome(stop: Stop, s: string, digitsAt: nat, base: nat, end: nat, bytes: string)
    requires 2 <= digitsAt < |s| && s[0] == '&' && s[1] == '#' && stop.Continues('&')
    requires if Peek(s, 2) == 'x' then digitsAt == 3 && base == 16 else digitsAt == 2 && base == 10
    requires end == digitsAt + DigitCount(s[digitsAt..]) < |s| && bytes == Utf8(CodeOf(s[digitsAt..], base, 0))
    ensures |bytes| <= end
    ensures if bytes == [] then Expand(stop, s) == Fail("invalid numeric character entity")
            else if s[end] != ';' then Expand(stop, s) == Fail("expected ;")
            else Expand(stop, s) == Prepend(bytes, Expand(stop, s[end + 1..]))
  {
    hide Utf8, CodeOf, DigitCount, Prepend;
    CodeNeedsDigits(s[digitsAt..], base);
    ShortCodes(CodeOf(s[digitsAt..], base, 0));
  }

  lemma ShortCodes(code: nat)
    ensures code < 0x80 ==> |Utf8(code)| == 1
  {}

  lemma Spliced(b: string, orig: string, dest: nat, bytes: string, src: nat, end: nat)
    requires dest <= src <= end < |orig| && dest + |bytes| <= end && Kept(orig, b, dest, dest + |bytes|)
    requires forall k | 0 <= k < |bytes| :: b[dest + k] == bytes[k]
    ensures b[..dest] == orig[..dest] && b[dest..dest + |bytes|] == bytes
    ensures b[end] == orig[src..][end - src] && b[end + 1..] == orig[end + 1..] == orig[src..][end - src + 1..]
  {}

  method NumericReference(buf: array<char>, stop: Stop, dest: nat, src: nat) returns (r: Result<(nat, nat), string>)
    requires Terminated(buf) && dest <= src < buf.Length - 1 && buf[src] == '&' && buf[src + 1] == '#'
             && stop.Continues('&')
    modifies buf
    ensures r.Err? ==> Expand(stop, old(buf[src..])) == Fail(r.error)
    ensures r.Ok? ==> Stepped(old(buf[..]), buf[..], stop, dest, src, r.value.0, r.value.1)
  {
    hide Expand, RefAt, CodeOf, DigitCount, Utf8, Prepend, Kept;
    ghost var s, orig := buf[src..], buf[..];
    var base, at := 10, src + 2;
    if buf[src + 2] == 'x' {
      base, at := 16, src + 3;
    }
    var code, end := ReadDigits(buf, at, base);
    assert s[at - src..] == buf[at..];
    ghost var bytes := Utf8(code);
    NumericOutcome(stop, s, at - src, base, end - src, bytes);
    var inserted := InsertCodedCharacter(buf, dest, code);
    if inserted.Err? {
      return Err(inserted.error);
    }
    Spliced(buf[..], orig, dest, bytes, src, end);
    assert buf[end] == buf[..][end] == s[end - src];
    if buf[end] != ';' {
      return Err("expected ;");
    }
    assert orig[src..] == s;
    return Ok((inserted.value, end + 1));
  }

  method NamedOrPlain(buf: array<char>, stop: Stop, dest: nat, src: nat, c: char, len: nat)
    requires Terminated(buf) && dest <= src && 0 < len && src + len < buf.Length && stop.Continues(buf[src])
    requires if buf[src] == '&' && !RefAt(buf[src..]).NoRef? then RefAt(buf[src..]) == Known([c], len)
             else c == buf[src] && len == 1
    modifies buf
    ensures Stepped(old(buf[..]), buf[..], stop, dest, src, dest + 1, src + len)
  {
    hide Expand, RefAt, Prepend;
    ghost var b, s := buf[..], buf[src..];
    ExpandStep(stop, s, [c], len);
    assert s == b[src..] && s[len..] == b[src + len..];
    buf[dest] := c;
    assert buf[..] == b[dest := c];
    assert b[dest := c][dest..dest + 1] == [c];
  }

  /** One round of the translation loop: a reference is replaced, anything else copied. */
  method Step(buf: array<char>, stop: Stop, dest: nat, src: nat) returns (r: Result<(nat, nat), string>)
    requires Terminated(buf) && dest <= src < buf.Length && stop.Continues(buf[src])
    modifies buf
    ensures r.Err? ==> Expand(stop, old(buf[src..])) == Fail(r.error)
    ensures r.Ok? ==> Stepped(old(buf[..]), buf[..], stop, dest, src, r.value.0, r.value.1)
  {
    hide Expand, RefAt, Prepend;
    if buf[src] == '&' {
      var c, len := NamedReference(buf, src);
      if len > 0 {
        NamedOrPlain(buf, stop, dest, src, c, len);
        return Ok((dest + 1, src + len));
      }
      if buf[src + 1] == '#' {
        r := NumericReference(buf, stop, dest, src);
        return;
      }
    }
    NamedOrPlain(buf, stop, dest, src, buf[src], 1);
    return Ok((dest + 1, src + 1));
  }

  lemma Resumed(stop: Stop, s0: string, done: string, s: string, more: string, s': string)
    requires Expand(stop, s0) == Prepend(done, Expand(stop, s))
    requires Expand(stop, s) == Prepend(more, Expand(stop, s'))
    ensures Expand(stop, s0) == Prepend(done + more, Expand(stop, s'))
  {
    hide Expand;
    PrependTwice(done, more, Expand(stop, s'));
  }

  lemma Finished(stop: Stop, s0: string, done: string, s: string)
    requires Expand(stop, s0) == Prepend(done, Expand(stop, s)) && s != [] && !stop.Continues(s[0])
    ensures Expand(stop, s0) == Done(done, s)
  {
    assert done + "" == done;
  }

  /** In-place expansion computes what expansion into a fresh string would: the write position
      never overtakes the read position, so no character is overwritten before it is read. */
  method SkipAndExpand(buf: array<char>, stop: Stop, start: nat) returns (r: Result<(nat, nat), string>)
    requires Terminated(buf) && start < buf.Length
    modifies buf
    ensures r.Err? ==> Expand(stop, old(buf[start..])) == Fail(r.error)
    ensures r.Ok? ==>
              var (end, text) := r.value;
              && start <= end <= text < buf.Length
              && Kept(old(buf[..]), buf[..], start, text)
              && Expand(stop, old(buf[start..])) == Done(buf[start..end], buf[text..])
  {
    hide Expand, RefAt, Prepend, Stepped;
    ghost var orig := buf[..];
    var src := Skip(buf, c => stop.Pure(c), start);
    PureSkipped(stop, buf[start..], src - start);
    assert orig[start..][..src - start] == orig[start..src] && buf[src..] == orig[src..];
    var dest := src;
    while stop.Continues(buf[src])
      invariant Terminated(buf) && Translated(stop, orig, buf[..], start, dest, src)
      decreases buf.Length - src
    {
      ghost var b := buf[..];
      assert b[src..] == buf[src..];
      var step := Step(buf, stop, dest, src);
      if step.Err? {
        FailedLater(stop, orig[start..], b[start..dest], b[src..], step.error);
        return Err(step.error);
      }
      var (dest', src') := step.value;
      Advanced(stop, orig, b, buf[..], start, dest, src, dest', src');
      dest, src := dest', src';
    }
    assert buf[src..] == buf[..][src..] && buf[start..dest] == buf[..][start..dest] && buf[src..][0] == buf[src];
    Finished(stop, orig[start..], buf[start..dest], buf[src..]);
    KeptBySlices(orig, buf[..], start, src);
    return Ok((dest, src));
  }

  /** The loop invariant: what lies in [start, dest) is the expansion of what has been read. */
  predicate Translated(stop: Stop, orig: string, b: string, start: nat, dest: nat, src: nat) {
    && start <= dest <= src < |b| && |orig| == |b|
    && b[..start] == orig[..start] && b[src..] == orig[src..]
    && Expand(stop, orig[start..]) == Prepend(b[start..dest], Expand(stop, b[src..]))
  }

  lemma Advanced(stop: Stop, orig: string, b: string, b': string, start: nat, dest: nat, src: nat, dest': nat,
          src': nat)
    requires Translated(stop, orig, b, start, dest, src) && Stepped(b, b', stop, dest, src, dest', src')
    ensures Translated(stop, orig, b', start, dest', src') && src < src' && b'[|b'| - 1] == b[|b| - 1]
  {
    hide Expand, Prepend;
    assert b'[start..dest] == b'[..dest][start..] == b[..dest][start..] == b[start..dest];
    assert b'[start..dest'] == b[start..dest] + b'[dest..dest'];
    assert b'[..start] == b'[..dest][..start] == b[..dest][..start] == b[..start];
    assert b'[src'..] == b[src'..] == b[src..][src' - src..] == orig[src..][src' - src..] == orig[src'..];
    Resumed(stop, orig[start..], b[start..dest], b[src..], b'[dest..dest'], b'[src'..]);
    assert b'[src'..][|b| - 1 - src'] == b[src'..][|b| - 1 - src'];
  }

  lemma PureSkipped(stop: Stop, s: string, n: nat)
    requires n == SpanLen(c => stop.Pure(c), s)
    ensures n <= |s| && Expand(stop, s) == Prepend(s[..n], Expand(stop, s[n..]))
  {
    SpanAll(c => stop.Pure(c), s);
    PureCopied(stop, s, n);
  }

  lemma FailedLater(stop: Stop, s0: string, done: string, s: string, what: string)
    requires Expand(stop, s0) == Prepend(done, Expand(stop, s)) && Expand(stop, s) == Fail(what)
    ensures Expand(stop, s0) == Fail(what)
  {
    hide Expand;
  }
}
