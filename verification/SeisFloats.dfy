/** share/seis/swap_bytes.cpp on words: the fields of IEEE single precision and of the IBM
    hexadecimal format, the two conversions, and what they keep. */
module SeisFloats {
  import opened Words

  type Word32 = x: int | 0 <= x < 0x1_0000_0000

  function Sign(w: Word32): (s: nat)
    ensures s < 2
  {
    w / 0x8000_0000
  }

  /** Biased exponent and mantissa of an IEEE single. */
  function Exponent(w: Word32): (e: nat)
    ensures e < 256
  {
    w / 0x80_0000 % 0x100
  }

  function Mantissa(w: Word32): (m: nat)
    ensures m < 0x80_0000
  {
    w % 0x80_0000
  }

  /** Biased exponent of 16 and fraction of an IBM single. */
  function Characteristic(w: Word32): (c: nat)
    ensures c < 128
  {
    w / 0x100_0000 % 0x80
  }

  function Fraction(w: Word32): (f: nat)
    ensures f < 0x100_0000
  {
    w % 0x100_0000
  }

  function Ieee(s: nat, e: nat, m: nat): (w: Word32)
    requires s < 2 && e < 256 && m < 0x80_0000
    ensures Sign(w) == s && Exponent(w) == e && Mantissa(w) == m
  {
    s * 0x8000_0000 + e * 0x80_0000 + m
  }

  function Ibm(s: nat, c: nat, f: nat): (w: Word32)
    requires s < 2 && c < 128 && f < 0x100_0000
    ensures Sign(w) == s && Characteristic(w) == c && Fraction(w) == f
  {
    s * 0x8000_0000 + c * 0x100_0000 + f
  }

  lemma IeeeParts(w: Word32)
    ensures w == Ieee(Sign(w), Exponent(w), Mantissa(w))
  {
    DivTwice(w, 0x80_0000, 0x100);
    var q := w / 0x80_0000;
    assert q == q / 0x100 * 0x100 + q % 0x100;
  }

  lemma IbmParts(w: Word32)
    ensures w == Ibm(Sign(w), Characteristic(w), Fraction(w))
  {
    DivTwice(w, 0x100_0000, 0x80);
    var q := w / 0x100_0000;
    assert q == q / 0x80 * 0x80 + q % 0x80;
  }

  // ---- the two shift loops ----

  /** How often float2ibm halves the mantissa: until the exponent is a multiple of four. */
  function Halvings(e: nat): (k: nat)
    ensures k < 4 && (e - 126 + k) % 4 == 0
  {
    (126 - e) % 4
  }

  /** How often ibm2float doubles the fraction: until bit 23 is set. */
  function Doublings(f: nat): (n: nat)
    requires 0 < f < 0x100_0000
    ensures n <= 23 && 0x80_0000 <= f * Pow2(n) < 0x100_0000
    decreases 0x80_0000 - f
  {
    if f >= 0x80_0000 then 0
    else
      var n := 1 + Doublings(2 * f);
      DoublingsBound(f, n);
      n
  }

  lemma DoublingsBound(f: nat, n: nat)
    requires 0 < f < 0x80_0000 && 0 < n && 0x80_0000 <= 2 * f * Pow2(n - 1) < 0x100_0000
    ensures f * Pow2(n) == 2 * f * Pow2(n - 1) && n <= 23
  {
    assert f * Pow2(n) == f * (2 * Pow2(n - 1)) == 2 * f * Pow2(n - 1);
    if n > 23 { TooMany(f, n); }
  }

  lemma TooMany(f: nat, n: nat)
    requires f > 0 && n >= 24
    ensures f * Pow2(n) >= 0x100_0000
  {
    Pow2Grows(24, n);
    Pow2Small();
    AtLeast(f, Pow2(n));
  }

  lemma Pow2Small()
    ensures Pow2(0) == 1 && Pow2(1) == 2 && Pow2(2) == 4 && Pow2(3) == 8
    ensures Pow2(20) == 0x10_0000 && Pow2(23) == 0x80_0000 && Pow2(24) == 0x100_0000
  {
    assert Pow2(8) == 0x100;
    assert Pow2(16) == 0x1_0000;
  }

  lemma {:induction false} Pow2Grows(j: nat, k: nat)
    requires j <= k
    ensures Pow2(j) <= Pow2(k)
  {
    if j < k { Pow2Grows(j, k - 1); }
  }

  lemma {:induction false} Pow2Plus(j: nat, k: nat)
    ensures Pow2(j + k) == Pow2(j) * Pow2(k)
  {
    if k > 0 {
      Pow2Plus(j, k - 1);
      assert Pow2(j + k) == 2 * Pow2(j + (k - 1));
      assert Pow2(j) * (2 * Pow2(k - 1)) == 2 * (Pow2(j) * Pow2(k - 1));
    } else {
      assert Pow2(j) * Pow2(0) == Pow2(j);
    }
  }

  /** The doubling loop ends exactly for a nonzero fraction, and then within 23 rounds. */
  lemma DoublingEndsExactly(f: nat)
    requires f < 0x100_0000
    ensures (exists n: nat :: f * Pow2(n) >= 0x80_0000) <==> f != 0
    ensures f != 0 ==> exists n: nat :: n <= 23 && 0x80_0000 <= f * Pow2(n) < 0x100_0000
  {
    if f != 0 {
      var n := Doublings(f);
      assert 0x80_0000 <= f * Pow2(n) < 0x100_0000;
    } else {
      forall n: nat ensures f * Pow2(n) == 0 { assert 0 * Pow2(n) == 0; }
    }
  }

  // ---- the conversions ----

  /** One word of float2ibm, before the byte order is considered. */
  function ToIbm(w: Word32): Word32 {
    if w == 0 then 0
    else
      var k := Halvings(Exponent(w));
      Halved(0x80_0000 + Mantissa(w), k);
      Ibm(Sign(w), (Exponent(w) - 126 + k) / 4 + 64, (0x80_0000 + Mantissa(w)) / Pow2(k))
  }

  lemma Halved(m: nat, k: nat)
    requires 0x80_0000 <= m < 0x100_0000 && k < 4
    ensures 0x10_0000 <= m / Pow2(k) < 0x100_0000 && m / Pow2(k) * Pow2(k) + m % Pow2(k) == m
    ensures 0x80_0000 <= m / Pow2(k) * Pow2(k) < 0x100_0000
  {
    Pow2Small();
    if k == 0 {} else if k == 1 {} else if k == 2 {} else {}
  }

  /** What ibm2float needs of a word: its loop does not end on a zero fraction. */
  predicate Convertible(w: Word32) { w == 0 || Fraction(w) != 0 }

  /** The exponent ibm2float computes. */
  function NewExponent(w: Word32): int
    requires Fraction(w) != 0
  {
    4 * Characteristic(w) - 130 - Doublings(Fraction(w))
  }

  /** One word of ibm2float, after the byte order is considered. */
  function FromIbm(w: Word32): Word32
    requires Convertible(w)
  {
    if w == 0 then 0
    else
      var t := NewExponent(w);
      if t > 254 then Ieee(Sign(w), 254, 0x7f_ffff)
      else if t <= 0 then 0
      else Ieee(Sign(w), t, Fraction(w) * Pow2(Doublings(Fraction(w))) - 0x80_0000)
  }

  /** Halving and doubling undo each other up to the bits shifted out. */
  lemma {:induction false} DoublingsOf(f: nat, n: nat)
    requires 0 < f && 0x80_0000 <= f * Pow2(n) < 0x100_0000
    ensures f < 0x100_0000 && Doublings(f) == n
    decreases n
  {
    if n == 0 {
      assert Pow2(0) == 1;
    } else {
      assert f * Pow2(n) == 2 * f * Pow2(n - 1);
      AtLeast(Pow2(n - 1), 2 * f);
      DoublingsOf(2 * f, n - 1);
    }
  }

  /** float2ibm never produces a word on which ibm2float would loop. */
  lemma ToIbmConvertible(w: Word32)
    ensures Convertible(ToIbm(w))
    ensures w != 0 ==> Fraction(ToIbm(w)) >= 0x10_0000
  {
    if w != 0 { Halved(0x80_0000 + Mantissa(w), Halvings(Exponent(w))); }
  }

  lemma ToIbmFields(w: Word32)
    requires w != 0
    ensures var k := Halvings(Exponent(w));
            && k == (2 - Exponent(w)) % 4 && Sign(ToIbm(w)) == Sign(w)
            && 4 * Characteristic(ToIbm(w)) == Exponent(w) + 130 + k
            && Fraction(ToIbm(w)) == (0x80_0000 + Mantissa(w)) / Pow2(k)
  {
    Halved(0x80_0000 + Mantissa(w), Halvings(Exponent(w)));
    hide Pow2;
  }

  /** float2ibm, then ibm2float, on every word: zero, subnormal numbers and minus zero become
      zero; infinities and NaNs become the largest number of their sign; every other number
      keeps sign and exponent and loses exactly the low (2 - exponent) mod 4 mantissa bits. */
  lemma RoundTrip(w: Word32)
    ensures Convertible(ToIbm(w))
    ensures Exponent(w) == 0 ==> FromIbm(ToIbm(w)) == 0
    ensures Exponent(w) == 255 ==> FromIbm(ToIbm(w)) == Ieee(Sign(w), 254, 0x7f_ffff)
    ensures 1 <= Exponent(w) <= 254 ==> FromIbm(ToIbm(w)) == w - w % Pow2((2 - Exponent(w)) % 4)
  {
    ToIbmConvertible(w);
    if w != 0 {
      var e, m := Exponent(w), 0x80_0000 + Mantissa(w);
      var k := Halvings(e);
      ToIbmFields(w);
      Halved(m, k);
      DoublingsOf(m / Pow2(k), k);
      hide ToIbm, Pow2, Doublings, Exponent, Mantissa, Sign, Fraction, Characteristic;
      assert NewExponent(ToIbm(w)) == e;
      if 1 <= e <= 254 {
        LowBits(w, k);
        IeeeParts(w);
        Lowered(Sign(w), e, Mantissa(w), m % Pow2(k));
      }
    }
  }

  lemma Lowered(s: nat, e: nat, m: nat, r: nat)
    requires s < 2 && e < 256 && m < 0x80_0000 && r <= m
    ensures Ieee(s, e, m) - r == Ieee(s, e, m - r)
  {}

  lemma LowBits(w: Word32, k: nat)
    requires k < 4
    ensures w % Pow2(k) == (0x80_0000 + Mantissa(w)) % Pow2(k) <= Mantissa(w)
  {
    var q, m, p := w / 0x80_0000, Mantissa(w), Pow2(k);
    var c := if k == 0 then 0x80_0000 else if k == 1 then 0x40_0000 else if k == 2 then 0x20_0000 else 0x10_0000;
    Pow2Small();
    assert c * p == 0x80_0000;
    LowPart(w, q, c, p, m);
    LowPart(0x80_0000 + m, 1, c, p, m);
  }

  lemma LowPart(x: nat, q: nat, c: nat, p: nat, m: nat)
    requires p > 0 && x == q * (c * p) + m
    ensures x % p == m % p <= m
  {
    var d, r := m / p, m % p;
    assert q * (c * p) == (q * c) * p;
    assert x == (q * c + d) * p + r;
    DivModUnique(x, p, q * c + d, r);
    assert d * p >= 0;
  }

  /** The round trip is exact for zero and for the normal numbers whose lost bits are clear, and
      for nothing else. */
  lemma RoundTripExactly(w: Word32)
    ensures Convertible(ToIbm(w))
    ensures FromIbm(ToIbm(w)) == w <==>
            w == 0 || (1 <= Exponent(w) <= 254 && w % Pow2((2 - Exponent(w)) % 4) == 0)
  {
    RoundTrip(w);
  }

  /** ibm2float, then float2ibm: exact for zero and for the normalized words whose exponent is in
      range, and for nothing else. */
  lemma ReverseTripExactly(v: Word32)
    requires Convertible(v)
    ensures ToIbm(FromIbm(v)) == v <==>
            v == 0 || (Fraction(v) >= 0x10_0000 && 1 <= NewExponent(v) <= 254)
  {
    if v != 0 && 1 <= NewExponent(v) <= 254 {
      var f, t := Fraction(v), NewExponent(v);
      var n := Doublings(f);
      IbmParts(v);
      FromIbmFields(v);
      ToIbmFields(FromIbm(v));
      ToIbmConvertible(FromIbm(v));
      NormalisedExactly(f, n);
      if n < 4 { SameFields(v); }
    }
  }

  lemma FromIbmFields(v: Word32)
    requires v != 0 && Convertible(v) && 1 <= NewExponent(v) <= 254
    ensures var f, w := Fraction(v), FromIbm(v);
            && w != 0 && Sign(w) == Sign(v) && Exponent(w) == NewExponent(v)
            && 0x80_0000 + Mantissa(w) == f * Pow2(Doublings(f))
            && Exponent(w) + 130 + Doublings(f) == 4 * Characteristic(v)
  {
    hide Pow2, Doublings, Fraction, Characteristic;
  }

  lemma SameFields(v: Word32)
    requires v != 0 && Convertible(v) && 1 <= NewExponent(v) <= 254 && Doublings(Fraction(v)) < 4
    ensures ToIbm(FromIbm(v)) == v
  {
    var w, n, f := FromIbm(v), Doublings(Fraction(v)), Fraction(v);
    FromIbmFields(v);
    ToIbmFields(w);
    IbmParts(v);
    IbmParts(ToIbm(w));
    hide Pow2, Doublings, Fraction, Characteristic, Sign, Exponent, Mantissa, FromIbm, ToIbm, NewExponent;
    assert Halvings(Exponent(w)) == n;
    DivModUnique(f * Pow2(n), Pow2(n), f, 0);
  }

  lemma NormalisedExactly(f: nat, n: nat)
    requires 0 < f && 0x80_0000 <= f * Pow2(n) < 0x100_0000
    ensures f >= 0x10_0000 <==> n < 4
  {
    hide Pow2;
    if n >= 4 {
      Pow2Grows(4, n);
      Sixteen();
      Product(f, 16, Pow2(n));
    } else {
      Pow2Grows(n, 3);
      Pow2Small();
      Product(f, Pow2(n), 8);
    }
  }

  lemma Sixteen()
    ensures Pow2(4) == 16
  {}

  lemma Product(f: nat, a: nat, b: nat)
    requires a <= b
    ensures f * a <= f * b
  {
    assert f * (b - a) >= 0;
    assert f * (b - a) == f * b - f * a;
  }

  // ---- the numbers the words stand for ----

  function Times(a: nat, b: nat): nat { a * b }

  /** 2^280 times the absolute value of an IEEE number: without the leading bit where the biased
      exponent is 0, and no number at all where it is 255. */
  function IeeeSize(w: Word32): nat
    requires Exponent(w) < 255
  {
    if Exponent(w) == 0 then Times(Mantissa(w), Pow2(131)) else Times(0x80_0000 + Mantissa(w), Pow2(Exponent(w) + 130))
  }

  /** 2^280 times the absolute value of an IBM number. */
  function IbmSize(w: Word32): nat { Fraction(w) * Pow2(4 * Characteristic(w)) }

  /** What float2ibm makes of any nonzero word: the leading bit is always put in, and the mantissa
      bits below the weight 2^k that the exponent's remainder costs are cut off. */
  lemma ToIbmSize(w: Word32, k: nat, d: nat)
    requires w != 0 && k == (2 - Exponent(w)) % 4 && d == Pow2(k)
    ensures var m, p := 0x80_0000 + Mantissa(w), Pow2(Exponent(w) + 130);
            && Sign(ToIbm(w)) == Sign(w)
            && m * p - IbmSize(ToIbm(w)) == (w % d) * p
            && (IbmSize(ToIbm(w)) == m * p <==> w % d == 0)
  {
    var e, m := Exponent(w), 0x80_0000 + Mantissa(w);
    ToIbmFields(w);
    Halved(m, k);
    LowBits(w, k);
    hide Exponent, Mantissa, Sign, Characteristic, Fraction, ToIbm, Halvings, Pow2;
    Pow2Plus(e + 130, k);
    Scaled(m, m / d, d, m % d, Pow2(e + 130));
  }

  /** A normal number is truncated towards zero, and kept exactly when the bits cut off are clear. */
  lemma ToIbmTruncates(w: Word32)
    requires 1 <= Exponent(w) <= 254
    ensures var k := (2 - Exponent(w)) % 4;
            && Sign(ToIbm(w)) == Sign(w)
            && IeeeSize(w) - IbmSize(ToIbm(w)) == (w % Pow2(k)) * Pow2(Exponent(w) + 130)
            && (IbmSize(ToIbm(w)) == IeeeSize(w) <==> w % Pow2(k) == 0)
  {
    assert Exponent(0) == 0;
    hide Pow2, IbmSize, ToIbm, Exponent, Mantissa;
    var k: nat := (2 - Exponent(w)) % 4;
    ToIbmSize(w, k, Pow2(k));
  }

  /** A subnormal number is read as if it had the leading bit. Of all words with exponent 0, only
      zero and the numbers with mantissa 0x7ffffe keep their value. */
  lemma SubnormalMisread(w: Word32)
    requires Exponent(w) == 0
    ensures IbmSize(ToIbm(w)) == IeeeSize(w) <==> w == 0 || Mantissa(w) == 0x7f_fffe
  {
    if w == 0 {
      ZeroKept(w);
    } else {
      SubnormalSizes(w);
      hide Pow2, Exponent, Mantissa, IbmSize, IeeeSize, ToIbm;
      OnlyOne(Mantissa(w), w % 4, Pow2(130), IbmSize(ToIbm(w)));
    }
  }

  lemma SubnormalSizes(w: Word32)
    requires w != 0 && Exponent(w) == 0
    ensures var m, p := Mantissa(w), Pow2(130);
            && w % 4 == (0x80_0000 + m) % 4 && IeeeSize(w) == m * (2 * p)
            && (0x80_0000 + m) * p - IbmSize(ToIbm(w)) == (w % 4) * p
  {
    FourFold();
    LowTwoBits(w);
    SubnormalSize(w);
    hide Pow2, IbmSize, ToIbm, Exponent, Mantissa, IeeeSize;
    ToIbmSize(w, 2, 4);
  }

  lemma LowTwoBits(w: Word32)
    ensures w % 4 == (0x80_0000 + Mantissa(w)) % 4
  {
    var q, m := w / 0x80_0000, Mantissa(w);
    assert w == q * (0x20_0000 * 4) + m;
    LowPart(w, q, 0x20_0000, 4, m);
    LowPart(0x80_0000 + m, 1, 0x20_0000, 4, m);
  }

  lemma SubnormalSize(w: Word32)
    requires Exponent(w) == 0
    ensures IeeeSize(w) == Mantissa(w) * (2 * Pow2(130))
  {
    FourFold();
    hide Pow2, Exponent, Mantissa;
  }

  lemma FourFold()
    ensures Pow2(2) == 4 && Pow2(131) == 2 * Pow2(130)
  {}

  lemma ZeroKept(w: Word32)
    requires w == 0
    ensures Exponent(w) == 0 && IbmSize(ToIbm(w)) == 0 && IeeeSize(w) == 0
  {
    hide Pow2;
    assert Exponent(w) == 0 && Fraction(w) == 0 && Mantissa(w) == 0;
  }

  lemma OnlyOne(m: nat, r: nat, p: nat, size: nat)
    requires m < 0x80_0000 && r == (0x80_0000 + m) % 4 && p > 0 && (0x80_0000 + m) * p - size == r * p
    ensures size == m * (2 * p) <==> m == 0x7f_fffe
  {
    Difference(0x80_0000 + m, r, p);
    Twofold(m, p);
    SameFactor(0x80_0000 + m - r, 2 * m, p);
    LastOne(m, r);
  }

  lemma Difference(a: nat, b: nat, p: nat)
    ensures (a - b) * p == a * p - b * p
  {}

  lemma Twofold(m: nat, p: nat)
    ensures m * (2 * p) == (2 * m) * p
  {}

  lemma SameFactor(a: nat, b: nat, p: nat)
    requires p > 0
    ensures a * p == b * p <==> a == b
  {
    if a < b { AtLeast(b - a, p); Difference(b, a, p); }
    if b < a { AtLeast(a - b, p); Difference(a, b, p); }
  }

  lemma LastOne(m: nat, r: nat)
    requires m < 0x80_0000 && r == (0x80_0000 + m) % 4
    ensures 0x80_0000 + m - r == 2 * m <==> m == 0x7f_fffe
  {}

  lemma Scaled(m: nat, q: nat, d: nat, r: nat, p: nat)
    requires m == q * d + r && p > 0
    ensures m * p - q * (p * d) == r * p && (r * p == 0 <==> r == 0)
  {
    assert m * p == q * d * p + r * p;
    assert q * (p * d) == q * d * p;
    if r > 0 { AtLeast(r, p); }
  }

  /** Where its result is a normal number, ibm2float is exact. */
  lemma FromIbmExact(v: Word32)
    requires v != 0 && Convertible(v) && 1 <= NewExponent(v) <= 254
    ensures Exponent(FromIbm(v)) == NewExponent(v)
    ensures Sign(FromIbm(v)) == Sign(v) && IeeeSize(FromIbm(v)) == IbmSize(v)
  {
    var f := Fraction(v);
    var n := Doublings(f);
    FromIbmFields(v);
    hide Pow2, Doublings, Fraction, Characteristic, Sign, Exponent, Mantissa, FromIbm, NewExponent;
    var p := Pow2(Exponent(FromIbm(v)) + 130);
    Pow2Plus(Exponent(FromIbm(v)) + 130, n);
    assert f * Pow2(n) * p == f * (p * Pow2(n)) by { Exchanged(f, Pow2(n), p); }
  }

  lemma Exchanged(f: nat, a: nat, p: nat)
    ensures f * a * p == f * (p * a)
  {}

  lemma ShiftedFar(f: nat, c: nat, n: nat, j: nat)
    requires 0x80_0000 <= f * Pow2(n) && j + n <= c
    ensures f * Pow2(c) >= Pow2(23 + j)
  {
    hide Pow2;
    Pow2Small();
    Pow2Plus(n, c - n);
    Pow2Plus(23, j);
    Pow2Grows(j, c - n);
    Factors(f, Pow2(n), Pow2(c - n));
    Product(Pow2(c - n), 0x80_0000, f * Pow2(n));
    Product(0x80_0000, Pow2(j), Pow2(c - n));
  }

  lemma ShiftedNear(f: nat, c: nat, n: nat, j: nat)
    requires f * Pow2(n) < 0x100_0000 && c < j + n
    ensures f * Pow2(c) < Pow2(23 + j)
  {
    hide Pow2;
    Pow2Small();
    if n <= c {
      Pow2Plus(n, c - n);
      Pow2Plus(24, c - n);
      Pow2Grows(24 + (c - n), 23 + j);
      Factors(f, Pow2(n), Pow2(c - n));
      Below(f * Pow2(n), 0x100_0000, Pow2(c - n));
    } else {
      Pow2Plus(n - 1, 1);
      Factors(f, Pow2(n - 1), 2);
      Pow2Grows(c, n - 1);
      Product(f, Pow2(c), Pow2(n - 1));
      Pow2Grows(23, 23 + j);
    }
  }

  lemma Factors(f: nat, a: nat, b: nat)
    ensures f * (a * b) == f * a * b == b * (f * a)
  {}

  /** The size of an IBM number tells how far its fraction has to be shifted. */
  lemma ShiftBySize(v: Word32, j: nat)
    requires Fraction(v) != 0
    ensures 4 * Characteristic(v) - Doublings(Fraction(v)) >= j <==> IbmSize(v) >= Pow2(23 + j)
  {
    hide Pow2, Fraction, Characteristic, Doublings;
    var f, c, n := Fraction(v), 4 * Characteristic(v), Doublings(Fraction(v));
    if j + n <= c { ShiftedFar(f, c, n, j); } else { ShiftedNear(f, c, n, j); }
  }

  lemma Below(a: nat, b: nat, p: nat)
    requires a < b && p > 0
    ensures a * p < b * p
  {
    Difference(b, a, p);
    AtLeast(b - a, p);
  }

  /** What ibm2float makes of every number it ends on, by its size: nothing below the least normal
      number survives, everything from 2^128 on becomes the largest number of its sign, and what
      lies in between is kept exactly. */
  lemma FromIbmBySize(v: Word32)
    requires v != 0 && Convertible(v)
    ensures IbmSize(v) < Pow2(154) ==> FromIbm(v) == 0
    ensures IbmSize(v) >= Pow2(408) ==> FromIbm(v) == Ieee(Sign(v), 254, 0x7f_ffff)
    ensures Pow2(154) <= IbmSize(v) < Pow2(408) ==>
              && 1 <= Exponent(FromIbm(v)) <= 254 && Sign(FromIbm(v)) == Sign(v)
              && IeeeSize(FromIbm(v)) == IbmSize(v)
  {
    ShiftBySize(v, 131);
    ShiftBySize(v, 385);
    hide Pow2, IbmSize, IeeeSize, Doublings, Characteristic, Sign, Exponent;
    if 1 <= NewExponent(v) <= 254 { FromIbmExact(v); }
  }

  /** The largest number is the largest, and it is below 2^128; the least normal one is 2^-126. */
  lemma ExtremeSizes(w: Word32, s: nat)
    requires Exponent(w) < 255 && s < 2
    ensures IeeeSize(w) <= IeeeSize(Ieee(s, 254, 0x7f_ffff)) < Pow2(408)
    ensures IeeeSize(Ieee(s, 1, 0)) == Pow2(154)
  {
    var e, m := Exponent(w), Mantissa(w);
    Pow2Small();
    hide Pow2, Exponent, Mantissa, Ieee;
    Pow2Plus(24, 384);
    Pow2Plus(23, 131);
    Below(0xff_ffff, 0x100_0000, Pow2(384));
    if e == 0 {
      Pow2Grows(131, 384);
      Product(m, Pow2(131), Pow2(384));
      Product(Pow2(384), m, 0xff_ffff);
    } else {
      Pow2Grows(e + 130, 384);
      Product(0x80_0000 + m, Pow2(e + 130), Pow2(384));
      Product(Pow2(384), 0x80_0000 + m, 0xff_ffff);
    }
  }

  /** One, in both formats: 0x3f800000 and 0x41100000, which is stored as 0x00001041 where the bytes
      are reversed. Both have the size 2^280. */
  lemma One(w: Word32, v: Word32, k: nat)
    requires w == 0x3f80_0000 && v == 0x4110_0000 && k == 280
    ensures ToIbm(w) == v && Convertible(v) && FromIbm(v) == w && Reversed(v) == 0x0000_1041
    ensures Exponent(w) == 127 && IeeeSize(w) == Pow2(k) == IbmSize(v)
  {
    OneReversed(v);
    hide *;
    OneFields(w, v);
    OneToIbm(w, v);
    OneFromIbm(w, v);
    OneSizes(w, v, k);
  }

  lemma OneFields(w: Word32, v: Word32)
    requires w == 0x3f80_0000 && v == 0x4110_0000
    ensures Sign(w) == 0 && Exponent(w) == 127 && Mantissa(w) == 0
    ensures Sign(v) == 0 && Characteristic(v) == 65 && Fraction(v) == 0x10_0000
  {}

  lemma OneToIbm(w: Word32, v: Word32)
    requires w != 0 && Sign(w) == 0 && Exponent(w) == 127 && Mantissa(w) == 0
    requires Sign(v) == 0 && Characteristic(v) == 65 && Fraction(v) == 0x10_0000
    ensures ToIbm(w) == v
  {
    hide Pow2, ToIbm, Ibm, Exponent, Mantissa, Sign, Characteristic, Fraction;
    ToIbmFields(w);
    Pow2Small();
    IbmParts(ToIbm(w));
    IbmParts(v);
  }

  lemma OneFromIbm(w: Word32, v: Word32)
    requires Sign(w) == 0 && Exponent(w) == 127 && Mantissa(w) == 0
    requires v != 0 && Sign(v) == 0 && Characteristic(v) == 65 && Fraction(v) == 0x10_0000
    ensures Convertible(v) && FromIbm(v) == w
  {
    hide Pow2, Ieee, Sign, Characteristic, Fraction, Doublings, Exponent, Mantissa;
    Pow2Small();
    DoublingsOf(0x10_0000, 3);
    IeeeParts(w);
  }

  lemma OneSizes(w: Word32, v: Word32, k: nat)
    requires Exponent(w) == 127 && Mantissa(w) == 0 && Characteristic(v) == 65 && Fraction(v) == 0x10_0000 && k == 280
    ensures IeeeSize(w) == Pow2(k) == IbmSize(v)
  {
    hide Pow2, Exponent, Mantissa, Characteristic, Fraction;
    Pow2Small();
    Pow2Plus(23, k - 23);
    Pow2Plus(20, k - 20);
  }

  lemma OneReversed(v: Word32)
    requires v == 0x4110_0000
    ensures Reversed(v) == 0x0000_1041
  {}

  // ---- byte order ----

  /** The shifts and masks with which both conversions reverse the bytes of a word. */
  function Reversed(w: Word32): Word32 {
    w % 0x100 * 0x100_0000 + w / 0x100_0000 + w / 0x100 % 0x100 * 0x1_0000 + w / 0x1_0000 % 0x100 * 0x100
  }

  function FromBytes(a: Byte, b: Byte, c: Byte, d: Byte): (w: Word32)
    ensures w % 0x100 == a && w / 0x100 % 0x100 == b && w / 0x1_0000 % 0x100 == c && w / 0x100_0000 == d
  {
    var w := d * 0x100_0000 + c * 0x1_0000 + b * 0x100 + a;
    DivModUnique(w, 0x100, d * 0x1_0000 + c * 0x100 + b, a);
    DivModUnique(w, 0x1_0000, d * 0x100 + c, b * 0x100 + a);
    DivModUnique(w, 0x100_0000, d, c * 0x1_0000 + b * 0x100 + a);
    DivModUnique(d * 0x1_0000 + c * 0x100 + b, 0x100, d * 0x100 + c, b);
    DivModUnique(d * 0x100 + c, 0x100, d, c);
    w
  }

  lemma BytesOf(w: Word32)
    ensures w == FromBytes(w % 0x100, w / 0x100 % 0x100, w / 0x1_0000 % 0x100, w / 0x100_0000)
  {
    DivTwice(w, 0x100, 0x100);
    DivTwice(w, 0x1_0000, 0x100);
    var q, r := w / 0x100, w / 0x1_0000;
    assert w == q * 0x100 + w % 0x100;
    assert q == r * 0x100 + q % 0x100;
    assert r == w / 0x100_0000 * 0x100 + r % 0x100;
  }

  /** The bytes of a word, the least significant one first. */
  function Bytes(w: Word32): (b: seq<Byte>)
    ensures |b| == 4
  {
    [w % 0x100, w / 0x100 % 0x100, w / 0x1_0000 % 0x100, w / 0x100_0000]
  }

  function OfBytes(b: seq<Byte>): (w: Word32)
    requires |b| == 4
    ensures Bytes(w) == b
  {
    FromBytes(b[0], b[1], b[2], b[3])
  }

  /** A word is its bytes. */
  lemma BytesOnly(w: Word32)
    ensures OfBytes(Bytes(w)) == w
  {
    BytesOf(w);
  }

  /** The bytes come in the opposite order. */
  lemma ReversedBytes(a: Byte, b: Byte, c: Byte, d: Byte)
    ensures Reversed(FromBytes(a, b, c, d)) == FromBytes(d, c, b, a)
  {}

  lemma ReversedTwice(w: Word32)
    ensures Reversed(Reversed(w)) == w
  {
    hide Reversed, FromBytes;
    BytesOf(w);
    var a: Byte, b: Byte, c: Byte, d: Byte := w % 0x100, w / 0x100 % 0x100, w / 0x1_0000 % 0x100, w / 0x100_0000;
    ReversedBytes(a, b, c, d);
    ReversedBytes(d, c, b, a);
  }
}
