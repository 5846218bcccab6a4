/** share/seis/swap_bytes.cpp: the loops over arrays, with the masks and shifts of the source. */
module SeisConvert {
  import opened Words
  import opened SeisFloats

  /** Bitwise disjunction of the low `w` bits. */
  function BitOr(a: nat, b: nat, w: nat): nat {
    if w == 0 then 0
    else (if a % 2 == 1 || b % 2 == 1 then 1 else 0) + 2 * BitOr(a / 2, b / 2, w - 1)
  }

  // ---- what masks and disjunctions compute ----

  lemma MaskDoubled(m: nat, s: nat, w: nat)
    requires w > 0
    ensures BitAnd(2 * m, s, w) == 2 * BitAnd(m, s / 2, w - 1)
  {}

  lemma Pow2Doubled(k: nat)
    requires k > 0
    ensures Pow2(k) == 2 * Pow2(k - 1)
  {}

  lemma LowMaskAll(s: nat, n: nat, w: nat)
    requires n <= w
    ensures Pow2(0) == 1 && BitAnd(Pow2(n) - 1, s, w) == s / 1 % Pow2(n) * 1
  {
    LowMask(s, n, w);
  }

  /** Masking n bits from bit k on. */
  lemma {:induction false} FieldMask(s: nat, k: nat, n: nat, w: nat)
    requires k + n <= w
    ensures Pow2(k) <= Pow2(k + n) && BitAnd(Pow2(k + n) - Pow2(k), s, w) == s / Pow2(k) % Pow2(n) * Pow2(k)
    decreases k
  {
    hide Pow2, BitAnd;
    if k == 0 {
      LowMaskAll(s, n, w);
    } else {
      FieldMask(s / 2, k - 1, n, w - 1);
      Pow2Doubled(k);
      Pow2Doubled(k + n);
      MaskDoubled(Pow2(k - 1 + n) - Pow2(k - 1), s, w);
      DivTwice(s, 2, Pow2(k - 1));
      Twice(s / Pow2(k) % Pow2(n), Pow2(k - 1));
    }
  }

  lemma Twice(f: nat, p: nat)
    ensures f * (2 * p) == 2 * (f * p)
  {}

  lemma {:induction false} OrNothing(a: nat, w: nat)
    requires a < Pow2(w)
    ensures BitOr(a, 0, w) == a
  {
    if w > 0 { OrNothing(a / 2, w - 1); }
  }

  /** Disjunction of a multiple of 2^k with a number below 2^k is their sum. */
  lemma {:induction false} OrIsSum(h: nat, b: nat, k: nat, w: nat)
    requires b < Pow2(k) && h * Pow2(k) + b < Pow2(w)
    ensures BitOr(h * Pow2(k), b, w) == h * Pow2(k) + b
    decreases w
  {
    if k == 0 {
      OrNothing(h, w);
    } else if w > 0 {
      var a := h * Pow2(k - 1);
      assert h * Pow2(k) == 2 * a;
      OrIsSum(h, b / 2, k - 1, w - 1);
    } else {
      assert h * Pow2(k) >= 0;
    }
  }

  // ---- the masks of the source ----

  lemma Masks(x: Word32)
    ensures BitAnd(0x007f_ffff, x, 32) == Mantissa(x)
    ensures BitAnd(0x7f80_0000, x, 32) == Exponent(x) * 0x80_0000
    ensures BitAnd(0x8000_0000, x, 32) == Sign(x) * 0x8000_0000
    ensures BitAnd(0x00ff_ffff, x, 32) == Fraction(x)
    ensures BitAnd(0x7f00_0000, x, 32) == Characteristic(x) * 0x100_0000
  {
    Pow2Small();
    Pow2Word();
    hide BitAnd, Pow2;
    LowMask(x, 23, 32);
    LowMask(x, 24, 32);
    FieldMask(x, 23, 8, 32);
    FieldMask(x, 31, 1, 32);
    FieldMask(x, 24, 7, 32);
    DivModUnique(Sign(x), 2, 0, Sign(x));
  }

  lemma Pow2Word()
    ensures Pow2(7) == 0x80 && Pow2(8) == 0x100 && Pow2(16) == 0x1_0000
    ensures Pow2(31) == 0x8000_0000 && Pow2(32) == 0x1_0000_0000
  {
    assert Pow2(8) == 0x100;
    assert Pow2(16) == 0x1_0000;
    assert Pow2(24) == 0x100_0000;
  }

  /** The implicit bit, and its test. */
  lemma Bit23(f: nat)
    requires f < 0x100_0000
    ensures BitAnd(0x0080_0000, f, 32) == 0 <==> f < 0x80_0000
    ensures f < 0x80_0000 ==> BitOr(f, 0x0080_0000, 32) == f + 0x80_0000
    ensures f >= 0x80_0000 ==> BitAnd(0x007f_ffff, f, 32) == f - 0x80_0000
  {
    Pow2Small();
    Pow2Word();
    hide BitAnd, BitOr, Pow2;
    FieldMask(f, 23, 1, 32);
    LowMask(f, 23, 32);
    DivModUnique(f, 0x80_0000, if f < 0x80_0000 then 0 else 1, if f < 0x80_0000 then f else f - 0x80_0000);
    if f < 0x80_0000 {
      OrIsSum(1, f, 23, 32);
      OrCommutes(f, 0x80_0000, 32);
    }
  }

  lemma {:induction false} OrCommutes(a: nat, b: nat, w: nat)
    ensures BitOr(a, b, w) == BitOr(b, a, w)
  {
    if w > 0 { OrCommutes(a / 2, b / 2, w - 1); }
  }

  /** Putting sign, exponent and fraction together. */
  lemma Packed(s: nat, c: nat, f: nat, k: nat)
    requires s < 2 && (k == 23 || k == 24) && f < Pow2(k) && c * Pow2(k) + f < 0x8000_0000
    ensures BitOr(BitOr(s * 0x8000_0000, c * Pow2(k), 32), f, 32) == s * 0x8000_0000 + c * Pow2(k) + f
  {
    Pow2Small();
    Pow2Word();
    hide BitOr, Pow2;
    OrIsSum(s, c * Pow2(k), 31, 32);
    var h := if k == 23 then 0x100 else 0x80;
    assert s * 0x8000_0000 + c * Pow2(k) == (s * h + c) * Pow2(k);
    OrIsSum(s * h + c, f, k, 32);
  }

  // ---- float2ibm ----

  /** The loop of float2ibm: raise the exponent to a multiple of four. */
  method ShiftDown(t0: int, m: nat) returns (t: int, fmant: nat)
    ensures t == t0 + (-t0) % 4 && fmant == m / Pow2((-t0) % 4)
  {
    hide Pow2;
    t, fmant := t0, m;
    ghost var j: nat := 0;
    Pow2Zero();
    while t % 4 != 0
      invariant t == t0 + j && j <= (-t0) % 4 && fmant == m / Pow2(j)
      decreases (-t0) % 4 - j
    {
      HalvedMore(m, j);
      t := t + 1;
      fmant := fmant / 2;
      j := j + 1;
    }
    assert j == (-t0) % 4;
  }

  method Unpack(fconv: Word32) returns (t: int, fmant: nat)
    ensures t == Exponent(fconv) - 126 && fmant == 0x80_0000 + Mantissa(fconv)
  {
    hide BitAnd, BitOr, Exponent, Mantissa;
    Masks(fconv);
    Bit23(Mantissa(fconv));
    fmant := BitOr(BitAnd(0x007f_ffff, fconv, 32), 0x0080_0000, 32);
    t := BitAnd(0x7f80_0000, fconv, 32) / 0x80_0000 - 126;
  }

  method Pack(fconv: Word32, t: int, fmant: nat) returns (r: Word32)
    requires 0 <= t / 4 + 64 < 128 && fmant < 0x100_0000
    ensures r == Sign(fconv) * 0x8000_0000 + (t / 4 + 64) * 0x100_0000 + fmant
  {
    Pow2Small();
    hide BitAnd, BitOr, Sign, Pow2;
    Masks(fconv);
    Packed(Sign(fconv), t / 4 + 64, fmant, 24);
    r := BitOr(BitOr(BitAnd(0x8000_0000, fconv, 32), (t / 4 + 64) * 0x100_0000, 32), fmant, 32);
  }

  /** The body of float2ibm for one word. */
  method ConvertToIbm(word: Word32) returns (fconv: Word32)
    ensures fconv == ToIbm(word)
  {
    fconv := word;
    if fconv != 0 {
      hide Pow2, Exponent, Mantissa, Sign, ToIbm;
      var t, fmant := Unpack(fconv);
      t, fmant := ShiftDown(t, fmant);
      ToIbmIs(word, t, fmant);
      fconv := Pack(fconv, t, fmant);
    }
  }

  lemma ToIbmIs(w: Word32, t: int, f: nat)
    requires w != 0
    requires var k := (126 - Exponent(w)) % 4; t == Exponent(w) - 126 + k && f == (0x80_0000 + Mantissa(w)) / Pow2(k)
    ensures 0 <= t / 4 + 64 < 128 && f < 0x100_0000
    ensures ToIbm(w) == Sign(w) * 0x8000_0000 + (t / 4 + 64) * 0x100_0000 + f
  {
    hide Pow2, Exponent, Mantissa, Sign;
    Halved(0x80_0000 + Mantissa(w), Halvings(Exponent(w)));
  }

  lemma Pow2Zero()
    ensures Pow2(0) == 1
  {}

  lemma HalvedMore(m: nat, j: nat)
    ensures m / Pow2(j) / 2 == m / Pow2(j + 1)
  {
    DivTwice(m, Pow2(j), 2);
  }

  // ---- ibm2float ----

  /** The loop of ibm2float: double the fraction until bit 23 is set. */
  method ShiftUp(t0: int, f: nat) returns (t: int, fmant: nat)
    requires 0 < f < 0x100_0000
    ensures t == t0 - Doublings(f) && fmant == f * Pow2(Doublings(f))
  {
    hide BitAnd, BitOr, Pow2;
    t, fmant := t0, f;
    ghost var j: nat := 0;
    Pow2Zero();
    Bit23(fmant);
    while BitAnd(0x0080_0000, fmant, 32) == 0
      invariant 0 < fmant < 0x100_0000 && fmant == f * Pow2(j) && t == t0 - j
      invariant BitAnd(0x0080_0000, fmant, 32) == 0 <==> fmant < 0x80_0000
      decreases 0x80_0000 - fmant
    {
      Pow2Doubled(j + 1);
      Twice(f, Pow2(j));
      t := t - 1;
      fmant := fmant * 2;
      j := j + 1;
      Bit23(fmant);
    }
    DoublingsOf(f, j);
  }

  method UnpackIbm(fconv: Word32) returns (t: int, fmant: nat)
    ensures t == 4 * Characteristic(fconv) - 130 && fmant == Fraction(fconv)
  {
    hide BitAnd, Characteristic, Fraction;
    Masks(fconv);
    fmant := BitAnd(0x00ff_ffff, fconv, 32);
    t := BitAnd(0x7f00_0000, fconv, 32) / 0x40_0000 - 130;
  }

  method PackIeee(fconv: Word32, t: int, fmant: nat) returns (r: Word32)
    requires 0x80_0000 <= fmant < 0x100_0000
    ensures r == if t > 254 then Ieee(Sign(fconv), 254, 0x7f_ffff)
                 else if t <= 0 then 0
                 else Ieee(Sign(fconv), t, fmant - 0x80_0000)
  {
    Pow2Small();
    hide BitAnd, BitOr, Sign, Pow2;
    Masks(fconv);
    if t > 254 {
      LargestPacked(Sign(fconv));
      r := BitOr(BitAnd(0x8000_0000, fconv, 32), 0x7f7f_ffff, 32);
    } else if t <= 0 {
      r := 0;
    } else {
      Bit23(fmant);
      Packed(Sign(fconv), t, fmant - 0x80_0000, 23);
      r := BitOr(BitOr(BitAnd(0x8000_0000, fconv, 32), t * 0x80_0000, 32), BitAnd(0x007f_ffff, fmant, 32), 32);
    }
  }

  /** The body of ibm2float for one word; on a nonzero word with a zero fraction its loop would
      not end. */
  method ConvertFromIbm(word: Word32) returns (fconv: Word32)
    requires Convertible(word)
    ensures fconv == FromIbm(word)
  {
    fconv := word;
    if fconv != 0 {
      hide Pow2, Characteristic, Fraction, Sign, Doublings, Ieee;
      var t, fmant := UnpackIbm(fconv);
      t, fmant := ShiftUp(t, fmant);
      fconv := PackIeee(fconv, t, fmant);
    }
  }

  lemma LargestPacked(s: nat)
    requires s < 2
    ensures BitOr(s * 0x8000_0000, 0x7f7f_ffff, 32) == Ieee(s, 254, 0x7f_ffff)
  {
    Pow2Word();
    hide BitOr, Pow2;
    OrIsSum(s, 0x7f7f_ffff, 31, 32);
  }

  // ---- byte order ----

  lemma {:induction false} OrAssociates(a: nat, b: nat, c: nat, w: nat)
    ensures BitOr(BitOr(a, b, w), c, w) == BitOr(a, BitOr(b, c, w), w)
  {
    if w > 0 { OrAssociates(a / 2, b / 2, c / 2, w - 1); }
  }

  /** The low operand moves past the next one. */
  lemma OrSwaps(a: nat, b: nat, c: nat, w: nat)
    ensures BitOr(BitOr(a, b, w), c, w) == BitOr(BitOr(a, c, w), b, w)
  {
    hide BitOr;
    OrAssociates(a, b, c, w);
    OrCommutes(b, c, w);
    OrAssociates(a, c, b, w);
  }

  /** Reversing a word is swapping one group of four bytes. */
  lemma ReversedSwaps(w: Word32)
    ensures Reversed(w) == OfBytes(Swapped(Bytes(w), 1, 4))
  {
    hide Reversed, FromBytes;
    BytesOf(w);
    ReversedBytes(Bytes(w)[0], Bytes(w)[1], Bytes(w)[2], Bytes(w)[3]);
    FourSwapped(Bytes(w));
  }

  lemma FourSwapped(b: seq<Byte>)
    requires |b| == 4
    ensures Swapped(b, 1, 4) == [b[3], b[2], b[1], b[0]]
  {}

  method ReverseBytes(fconv: Word32) returns (r: Word32)
    ensures r == Reversed(fconv) && Bytes(r) == Swapped(Bytes(fconv), 1, 4)
  {
    hide BitAnd, BitOr, Pow2;
    Pow2Word();
    Pow2Small();
    var a: Byte, b: Byte := fconv % 0x100, fconv / 0x100 % 0x100;
    var c: Byte, d: Byte := fconv / 0x1_0000 % 0x100, fconv / 0x100_0000;
    LowMask(fconv / 0x100_0000, 8, 32);
    DivModUnique(d, 0x100, 0, d);
    FieldMask(fconv, 8, 8, 32);
    FieldMask(fconv, 16, 8, 32);
    ShiftedOut(fconv);
    ReversedSwaps(fconv);
    ghost var hi := a * 0x100_0000;
    OrSwaps(hi, d, b * 0x1_0000, 32);
    OrSwaps(BitOr(hi, b * 0x1_0000, 32), d, c * 0x100, 32);
    OrIsSum(a, b * 0x1_0000, 24, 32);
    OrIsSum(a * 0x100 + b, c * 0x100, 16, 32);
    OrIsSum(a * 0x1_0000 + b * 0x100 + c, d, 8, 32);
    r := BitOr(BitOr(BitOr(fconv * 0x100_0000 % 0x1_0000_0000, BitAnd(0xff, fconv / 0x100_0000, 32), 32),
                     BitAnd(0xff00, fconv, 32) * 0x100, 32), BitAnd(0xff_0000, fconv, 32) / 0x100, 32);
  }

  lemma ShiftedOut(w: Word32)
    ensures w * 0x100_0000 % 0x1_0000_0000 == w % 0x100 * 0x100_0000
  {
    var q, a := w / 0x100, w % 0x100;
    DivModUnique(w * 0x100_0000, 0x1_0000_0000, q, a * 0x100_0000);
  }

  // ---- arrays ----

  /** A float as float2ibm stores it, and back. */
  function Stored(w: Word32, littleEndian: bool): Word32 { if littleEndian then Reversed(ToIbm(w)) else ToIbm(w) }

  function Loaded(v: Word32, littleEndian: bool): Word32 { if littleEndian then Reversed(v) else v }

  method Float2Ibm(data: array<Word32>, n: nat, littleEndian: bool)
    requires n <= data.Length
    modifies data
    ensures forall i | 0 <= i < data.Length ::
              data[i] == if i < n then Stored(old(data[i]), littleEndian) else old(data[i])
    ensures forall i | 0 <= i < n ::
              Bytes(data[i]) == if littleEndian then Swapped(Bytes(ToIbm(old(data[i]))), 1, 4)
                                else Bytes(ToIbm(old(data[i])))
  {
    hide ToIbm, Reversed, Swapped, Bytes;
    var i := 0;
    while i < n
      invariant i <= n
      invariant forall k | 0 <= k < data.Length ::
                  data[k] == if k < i then Stored(old(data[k]), littleEndian) else old(data[k])
    {
      var fconv := ConvertToIbm(data[i]);
      if littleEndian {
        fconv := ReverseBytes(fconv);
      }
      data[i] := fconv;
      i := i + 1;
    }
    forall k | 0 <= k < n
      ensures Bytes(data[k]) == if littleEndian then Swapped(Bytes(ToIbm(old(data[k]))), 1, 4)
                                else Bytes(ToIbm(old(data[k])))
    {
      ReversedSwaps(ToIbm(old(data[k])));
    }
  }

  method Ibm2Float(data: array<Word32>, n: nat, littleEndian: bool)
    requires n <= data.Length && forall i | 0 <= i < n :: Convertible(Loaded(data[i], littleEndian))
    modifies data
    ensures forall i | 0 <= i < data.Length ::
              data[i] == if i < n then FromIbm(Loaded(old(data[i]), littleEndian)) else old(data[i])
    ensures littleEndian ==>
              forall i | 0 <= i < n ::
                var w := OfBytes(Swapped(Bytes(old(data[i])), 1, 4)); Convertible(w) && data[i] == FromIbm(w)
  {
    hide FromIbm, Reversed, Convertible, Swapped, OfBytes, Bytes;
    var i := 0;
    while i < n
      invariant i <= n
      invariant forall k | 0 <= k < n :: Convertible(Loaded(old(data[k]), littleEndian))
      invariant forall k | 0 <= k < data.Length ::
                  data[k] == if k < i then FromIbm(Loaded(old(data[k]), littleEndian)) else old(data[k])
    {
      var fconv := data[i];
      if littleEndian {
        fconv := ReverseBytes(fconv);
      }
      fconv := ConvertFromIbm(fconv);
      data[i] := fconv;
      i := i + 1;
    }
    if littleEndian {
      forall k | 0 <= k < n ensures Loaded(old(data[k]), true) == OfBytes(Swapped(Bytes(old(data[k])), 1, 4)) {
        ReversedSwaps(old(data[k]));
      }
    }
  }

  /** What was stored is always accepted back, and comes back as the round trip of the word, in
      either byte order. */
  lemma StoredAndLoaded(w: Word32, littleEndian: bool)
    ensures Loaded(Stored(w, littleEndian), littleEndian) == ToIbm(w) && Convertible(ToIbm(w))
    ensures FromIbm(Loaded(Stored(w, littleEndian), littleEndian)) == w <==>
            w == 0 || (1 <= Exponent(w) <= 254 && w % Pow2((2 - Exponent(w)) % 4) == 0)
  {
    hide FromIbm, ToIbm;
    ReversedTwice(ToIbm(w));
    RoundTripExactly(w);
  }

  // ---- swap_bytes ----

  /** Where a byte goes when each group of nb bytes is reversed. */
  function Mirror(k: nat, nb: nat): (m: nat)
    requires nb > 0
    ensures m / nb == k / nb && m % nb == nb - 1 - k % nb
  {
    var m := k / nb * nb + (nb - 1 - k % nb);
    DivModUnique(m, nb, k / nb, nb - 1 - k % nb);
    m
  }

  lemma MirrorInside(k: nat, n: nat, nb: nat)
    requires nb > 0 && k < n * nb
    ensures Mirror(k, nb) < n * nb
  {
    var q := k / nb;
    assert q < n by { if q >= n { AtLeastTimes(n, q, nb); } }
    AtLeastTimes(q + 1, n, nb);
    assert (q + 1) * nb == q * nb + nb;
  }

  lemma AtLeastTimes(a: nat, b: nat, c: nat)
    requires a <= b
    ensures a * c <= b * c
  {
    assert (b - a) * c >= 0;
    assert (b - a) * c == b * c - a * c;
  }

  lemma MirrorTwice(k: nat, nb: nat)
    requires nb > 0
    ensures Mirror(Mirror(k, nb), nb) == k
  {
    var m := Mirror(k, nb);
    assert k == k / nb * nb + k % nb;
    assert Mirror(m, nb) == m / nb * nb + (nb - 1 - m % nb);
  }

  /** The n groups of nb bytes, each reversed. */
  function Swapped(b: seq<Byte>, n: nat, nb: nat): (r: seq<Byte>)
    requires n * nb <= |b|
    ensures |r| == |b|
  {
    seq(|b|, k requires 0 <= k < |b| => SwappedAt(b, n, nb, k))
  }

  function SwappedAt(b: seq<Byte>, n: nat, nb: nat, k: nat): Byte
    requires n * nb <= |b| && k < |b|
  {
    if k < n * nb && nb > 0 then MirrorInside(k, n, nb); b[Mirror(k, nb)] else b[k]
  }

  lemma SwappedIndex(b: seq<Byte>, n: nat, nb: nat, k: nat)
    requires n * nb <= |b| && k < |b|
    ensures Swapped(b, n, nb)[k] == SwappedAt(b, n, nb, k)
  {}

  /** Swapping twice restores the bytes. */
  lemma SwappedTwice(b: seq<Byte>, n: nat, nb: nat)
    requires n * nb <= |b|
    ensures Swapped(Swapped(b, n, nb), n, nb) == b
  {
    forall k | 0 <= k < |b| ensures Swapped(Swapped(b, n, nb), n, nb)[k] == b[k] {
      if k < n * nb && nb > 0 {
        MirrorInside(k, n, nb);
        MirrorTwice(k, nb);
      }
    }
  }

  /** One group: copied reversed into a buffer of sixteen bytes, then copied back. */
  method ReverseGroup(b: array<Byte>, start: nat, nb: nat)
    requires start + nb <= b.Length && nb <= 16
    modifies b
    ensures forall k | 0 <= k < b.Length ::
              b[k] == if start <= k < start + nb then old(b[start + (start + nb - 1 - k)]) else old(b[k])
  {
    var tmp := new Byte[16](_ => 0);
    var j := 0;
    while j < nb
      invariant j <= nb && forall x | 0 <= x < j :: tmp[x] == b[start + nb - 1 - x]
      modifies tmp
    {
      tmp[j] := b[start + nb - 1 - j];
      j := j + 1;
    }
    j := 0;
    while j < nb
      invariant j <= nb && forall x | 0 <= x < nb :: tmp[x] == old(b[start + nb - 1 - x])
      invariant forall k | 0 <= k < b.Length :: b[k] == if start <= k < start + j then tmp[k - start] else old(b[k])
      modifies b
    {
      b[start + j] := tmp[j];
      j := j + 1;
    }
  }

  lemma NextGroup(i: nat, nb: nat)
    ensures (i + 1) * nb == i * nb + nb
  {}

  lemma InGroup(b: seq<Byte>, i: nat, nb: nat, k: nat)
    requires i * nb + nb <= |b| && i * nb <= k < i * nb + nb
    ensures (i + 1) * nb == i * nb + nb && Swapped(b, i + 1, nb)[k] == Swapped(b, i, nb)[i * nb + (i * nb + nb - 1 - k)]
  {
    hide Swapped, Mirror;
    NextGroup(i, nb);
    var x := k - i * nb;
    MirrorOf(i, nb, x);
    assert i * nb + x == k;
    SwappedIndex(b, i + 1, nb, k);
    SwappedIndex(b, i, nb, Mirror(k, nb));
  }

  lemma OffGroup(b: seq<Byte>, i: nat, nb: nat, k: nat)
    requires i * nb + nb <= |b| && k < |b| && !(i * nb <= k < i * nb + nb)
    ensures (i + 1) * nb == i * nb + nb && Swapped(b, i + 1, nb)[k] == Swapped(b, i, nb)[k]
  {
    hide Swapped, Mirror;
    NextGroup(i, nb);
    SwappedIndex(b, i + 1, nb, k);
    SwappedIndex(b, i, nb, k);
  }

  lemma SwappedMore(b: seq<Byte>, c: seq<Byte>, i: nat, nb: nat, start: nat)
    requires start == i * nb && start + nb <= |b| == |c| && nb > 0
    requires forall k | start <= k < start + nb :: c[k] == Swapped(b, i, nb)[start + (start + nb - 1 - k)]
    requires forall k | 0 <= k < |b| && !(start <= k < start + nb) :: c[k] == Swapped(b, i, nb)[k]
    ensures (i + 1) * nb == start + nb && c == Swapped(b, i + 1, nb)
  {
    hide Swapped;
    NextGroup(i, nb);
    forall k | 0 <= k < |b| ensures c[k] == Swapped(b, i + 1, nb)[k] {
      if start <= k < start + nb { InGroup(b, i, nb, k); } else { OffGroup(b, i, nb, k); }
    }
  }

  lemma MirrorOf(i: nat, nb: nat, x: nat)
    requires x < nb
    ensures Mirror(i * nb + x, nb) == i * nb + (nb - 1 - x)
  {
    DivModUnique(i * nb + x, nb, i, x);
  }

  lemma NothingSwapped(b: seq<Byte>, nb: nat)
    ensures 0 * nb == 0 && Swapped(b, 0, nb) == b
  {}

  lemma EmptyGroups(b: seq<Byte>, n: nat)
    ensures n * 0 == 0 && Swapped(b, n, 0) == b
  {}

  method SwapBytes(b: array<Byte>, n: nat, nb: nat)
    requires n * nb <= b.Length && nb <= 16
    modifies b
    ensures b[..] == Swapped(old(b[..]), n, nb)
  {
    hide Swapped;
    ghost var before := b[..];
    NothingSwapped(before, nb);
    var i := 0;
    while i < n
      invariant i <= n && i * nb <= b.Length == |before| && b[..] == Swapped(before, i, nb)
    {
      AtLeastTimes(i + 1, n, nb);
      assert (i + 1) * nb == i * nb + nb;
      ReverseGroup(b, nb * i, nb);
      if nb > 0 {
        SwappedMore(before, b[..], i, nb, i * nb);
      } else {
        EmptyGroups(before, i);
        EmptyGroups(before, i + 1);
      }
      i := i + 1;
    }
  }
}
