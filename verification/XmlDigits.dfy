/** The numbers that numeric character references of external/rapidxml spell. */
module XmlDigits {
  import opened Words
  import opened XmlText

  /** `c` is the digit for `k`, in small or capital letters. */
  predicate IsDigitFor(c: char, k: nat) { k < 16 && (c == "0123456789abcdef"[k] || c == "0123456789ABCDEF"[k]) }

  ghost predicate IsHexDigit(c: char) { exists k :: IsDigitFor(c, k) }

  ghost function Digit(c: char): (k: nat)
    ensures IsHexDigit(c) ==> IsDigitFor(c, k)
  {
    if IsHexDigit(c) then (var k: nat :| IsDigitFor(c, k); k) else 0
  }

  ghost predicate AllHex(digits: string) { forall i | 0 <= i < |digits| :: IsHexDigit(digits[i]) }

  /** The positional value of a numeral. */
  ghost function Value(digits: string, base: nat): nat {
    if digits == "" then 0 else Value(digits[..|digits| - 1], base) * base + Digit(digits[|digits| - 1])
  }

  // ---- the table of the source ----

  lemma DigitFor(c: char, k: nat)
    requires IsDigitFor(c, k)
    ensures DigitValue(c) == k
  {}

  lemma TableHas(c: char)
    requires DigitValue(c) != 255
    ensures IsDigitFor(c, DigitValue(c))
  {}

  /** lookup_digits knows the hexadecimal digits and their values, and nothing else. */
  lemma TableExactly(c: char)
    ensures DigitValue(c) != 255 <==> IsHexDigit(c)
    ensures IsHexDigit(c) ==> DigitValue(c) == Digit(c)
  {
    hide IsDigitFor, DigitValue;
    if IsHexDigit(c) {
      DigitFor(c, Digit(c));
      DigitBelow(c, Digit(c));
    }
    if DigitValue(c) != 255 { TableHas(c); }
  }

  lemma DigitBelow(c: char, k: nat)
    requires IsDigitFor(c, k)
    ensures k < 16 && k != 255
  {}

  // ---- what the loop computes ----

  /** The loop's result without wrap-around, from a given start. */
  ghost function Fold(digits: string, base: nat, start: nat): nat {
    if digits == "" then start else Fold(digits[1..], base, start * base + Digit(digits[0]))
  }

  lemma {:induction false} FoldLast(digits: string, base: nat, start: nat)
    requires digits != ""
    ensures Fold(digits, base, start)
            == Fold(digits[..|digits| - 1], base, start) * base + Digit(digits[|digits| - 1])
  {
    var n := |digits| - 1;
    if n > 0 {
      FoldLast(digits[1..], base, start * base + Digit(digits[0]));
      assert digits[1..][..n - 1] == digits[..n][1..];
    }
  }

  lemma {:induction false} FoldIsValue(digits: string, base: nat)
    ensures Fold(digits, base, 0) == Value(digits, base)
  {
    if digits != "" {
      FoldIsValue(digits[..|digits| - 1], base);
      FoldLast(digits, base, 0);
    }
  }

  lemma WrapEarly(x: nat, base: nat, d: nat)
    ensures (x % TWO_64 * base + d) % TWO_64 == (x * base + d) % TWO_64
  {
    var q, r := x / TWO_64, x % TWO_64;
    var y := r * base + d;
    assert x == q * TWO_64 + r;
    assert x * base + d == (q * base + y / TWO_64) * TWO_64 + y % TWO_64 by {
      assert q * TWO_64 * base == q * base * TWO_64;
    }
    DivModUnique(x * base + d, TWO_64, q * base + y / TWO_64, y % TWO_64);
  }

  lemma {:induction false} CodeWraps(digits: string, tail: string, base: nat, start: nat)
    requires AllHex(digits) && (tail == "" || !IsHexDigit(tail[0]))
    ensures CodeOf(digits + tail, base, start % TWO_64) == Fold(digits, base, start) % TWO_64
    ensures DigitCount(digits + tail) == |digits|
    decreases |digits|
  {
    hide DigitValue, IsHexDigit;
    if digits == "" {
      assert digits + tail == tail;
      if tail != "" { TableExactly(tail[0]); }
    } else {
      var d := Digit(digits[0]);
      assert (digits + tail)[0] == digits[0] && (digits + tail)[1..] == digits[1..] + tail;
      TableExactly(digits[0]);
      CodeWraps(digits[1..], tail, base, start * base + d);
      WrapEarly(start, base, d);
    }
  }

  /** For any digits, the code of a reference is their positional value modulo 2^64. */
  lemma CodeIsValue(digits: string, tail: string, base: nat)
    requires AllHex(digits) && (tail == "" || !IsHexDigit(tail[0]))
    ensures CodeOf(digits + tail, base, 0) == Value(digits, base) % TWO_64 && DigitCount(digits + tail) == |digits|
  {
    CodeWraps(digits, tail, base, 0);
    FoldIsValue(digits, base);
  }

  // ---- references ----

  lemma SemicolonEnds()
    ensures !IsHexDigit(';') && !IsHexDigit('x')
  {}

  lemma HashReference(s: string)
    requires |s| >= 3 && s[0] == '&' && s[1] == '#'
    ensures RefAt(s) == if s[2] == 'x' then Numeric(s, 3, 16) else Numeric(s, 2, 10)
  {
    hide Numeric;
  }

  /** What the code of a numeric reference of `len` characters stands for. */
  function Coded(code: nat, len: nat): Ref {
    if code < 0x110000 then Known(Utf8(code), len) else Bad("invalid numeric character entity")
  }

  /** A hexadecimal reference, whatever digits it has. */
  lemma HexReference(digits: string, tail: string)
    requires AllHex(digits)
    ensures RefAt("&#x" + digits + ";" + tail) == Coded(Value(digits, 16) % TWO_64, |digits| + 4)
  {
    hide RefAt, Numeric, Value, Coded;
    var s := "&#x" + digits + ";" + tail;
    SemicolonEnds();
    NumericAt("&#x", digits, tail, 16);
    assert s[0] == '&' && s[1] == '#' && s[2] == 'x';
    HashReference(s);
  }

  /** A decimal reference; the table lets it have hexadecimal digits, too. */
  lemma DecimalReference(digits: string, tail: string)
    requires AllHex(digits)
    ensures RefAt("&#" + digits + ";" + tail) == Coded(Value(digits, 10) % TWO_64, |digits| + 3)
  {
    hide RefAt, Numeric, Value, Coded, IsHexDigit;
    var s := "&#" + digits + ";" + tail;
    SemicolonEnds();
    NumericAt("&#", digits, tail, 10);
    assert s[0] == '&' && s[1] == '#' && s[2] == if digits == "" then ';' else digits[0];
    HashReference(s);
  }

  lemma NumericAt(lead: string, digits: string, tail: string, base: nat)
    requires AllHex(digits) && !IsHexDigit(';')
    ensures var s, code := lead + digits + ";" + tail, Value(digits, base) % TWO_64;
            Numeric(s, |lead|, base) == Coded(code, |lead| + |digits| + 1)
  {
    hide Utf8, IsHexDigit, CodeOf, DigitCount, Value;
    var s := lead + digits + ";" + tail;
    assert s[|lead|..] == digits + (";" + tail) && s[|lead| + |digits|] == ';';
    CodeIsValue(digits, ";" + tail, base);
  }

  // ---- every code has a reference ----

  /** The numeral of a number, in the given row of digits. */
  function Spelled(n: nat, row: string): (digits: string)
    requires |row| >= 2
    ensures digits != ""
  {
    if n < |row| then [row[n]] else Spelled(n / |row|, row) + [row[n % |row|]]
  }

  ghost predicate IsRow(row: string) { 2 <= |row| <= 16 && forall k | 0 <= k < |row| :: IsDigitFor(row[k], k) }

  lemma ValueMore(init: string, c: char, base: nat)
    ensures Value([], base) == 0 && Value(init + [c], base) == Value(init, base) * base + Digit(c)
  {
    hide Digit;
    assert (init + [c])[..|init|] == init;
  }

  lemma {:induction false} SpelledValue(n: nat, row: string)
    requires IsRow(row)
    ensures AllHex(Spelled(n, row)) && Value(Spelled(n, row), |row|) == n
    decreases n
  {
    hide IsDigitFor, IsRow, IsHexDigit, Value, Digit;
    RowSize(row);
    var last := n % |row|;
    RowDigit(row, last);
    if n < |row| {
      ValueMore([], row[n], |row|);
      assert [] + [row[n]] == [row[n]];
      assert last == n by { DivModUnique(n, |row|, 0, n); }
    } else {
      Euclid(n, |row|);
      SpelledValue(n / |row|, row);
      ValueMore(Spelled(n / |row|, row), row[last], |row|);
    }
  }

  lemma RowSize(row: string)
    requires IsRow(row)
    ensures 2 <= |row|
  {}

  lemma Euclid(n: nat, d: nat)
    requires 2 <= d <= n
    ensures n == n / d * d + n % d && n / d < n
  {}

  lemma RowDigit(row: string, k: nat)
    requires IsRow(row) && k < |row|
    ensures IsHexDigit(row[k]) && Digit(row[k]) == k
  {
    hide DigitValue, IsDigitFor;
    DigitFor(row[k], k);
    DigitFor(row[k], Digit(row[k]));
  }

  lemma Rows()
    ensures IsRow("0123456789") && IsRow("0123456789abcdef") && IsRow("0123456789ABCDEF")
  {}

  /** Every character has its decimal and its hexadecimal reference, in small and in capital letters. */
  lemma EveryCodeHasReferences(code: nat, tail: string)
    requires code < 0x110000
    ensures var d := Spelled(code, "0123456789");
            RefAt("&#" + d + ";" + tail) == Known(Utf8(code), |d| + 3)
    ensures var x := Spelled(code, "0123456789abcdef");
            RefAt("&#x" + x + ";" + tail) == Known(Utf8(code), |x| + 4)
    ensures var x := Spelled(code, "0123456789ABCDEF");
            RefAt("&#x" + x + ";" + tail) == Known(Utf8(code), |x| + 4)
  {
    hide Utf8, RefAt, IsRow, Spelled;
    Rows();
    SpelledReference(code, "0123456789", tail);
    SpelledReference(code, "0123456789abcdef", tail);
    SpelledReference(code, "0123456789ABCDEF", tail);
  }

  lemma SpelledReference(code: nat, row: string, tail: string)
    requires code < 0x110000 && IsRow(row) && (|row| == 10 || |row| == 16)
    ensures var d := Spelled(code, row);
            if |row| == 10 then RefAt("&#" + d + ";" + tail) == Known(Utf8(code), |d| + 3)
            else RefAt("&#x" + d + ";" + tail) == Known(Utf8(code), |d| + 4)
  {
    hide Utf8, RefAt, Spelled, Value;
    SpelledValue(code, row);
    if |row| == 10 {
      DecimalReference(Spelled(code, row), tail);
    } else {
      HexReference(Spelled(code, row), tail);
    }
  }
}
