/** Machine words and bytes, bit masks, and the power-of-two rounding of src/mmgr/tmmgr.cpp. */
module Words {

  const TWO_64: int := 0x1_0000_0000_0000_0000

  /** `unsigned long` of the source. Every place where its arithmetic can wrap says `% TWO_64`;
      everywhere else the subset type obliges us to show that it does not. */
  type Word = x: int | 0 <= x < TWO_64

  type Byte = x: int | 0 <= x < 256

  function Pow2(k: nat): (p: nat)
    ensures p > 0
  {
    if k == 0 then 1 else 2 * Pow2(k - 1)
  }

  lemma Pow2Values()
    ensures Pow2(63) == 0x8000_0000_0000_0000 && Pow2(64) == TWO_64
  {
    assert Pow2(8) == 0x100;
    assert Pow2(16) == 0x1_0000;
    assert Pow2(24) == 0x100_0000;
    assert Pow2(32) == 0x1_0000_0000;
    assert Pow2(40) == 0x100_0000_0000;
    assert Pow2(48) == 0x1_0000_0000_0000;
    assert Pow2(56) == 0x100_0000_0000_0000;
  }

  ghost predicate IsPowerOfTwo(align: Word) {
    exists k: nat :: k < 64 && align == Pow2(k)
  }

  /** Bitwise conjunction of the low `w` bits. */
  function BitAnd(a: nat, b: nat, w: nat): nat {
    if w == 0 then 0
    else (if a % 2 == 1 && b % 2 == 1 then 1 else 0) + 2 * BitAnd(a / 2, b / 2, w - 1)
  }

  lemma {:induction false} BitAndBounded(a: nat, b: nat, w: nat)
    ensures BitAnd(a, b, w) < Pow2(w)
  {
    if w > 0 { BitAndBounded(a / 2, b / 2, w - 1); }
  }

  /** alignDown on 64-bit words; for an alignment of 0 the mask is 0. */
  function AlignDown(size: Word, align: Word): Word {
    var mask := TWO_64 - 1 - (align + TWO_64 - 1) % TWO_64;
    BitAndBounded(size, mask, 64);
    Pow2Values();
    BitAnd(size, mask, 64)
  }

  /** alignUp; the addition may wrap. */
  function AlignUp(size: Word, align: Word): Word {
    AlignDown((size + align + TWO_64 - 1) % TWO_64, align)
  }

  // ---- what the bit masks compute ----

  lemma {:induction false} AllOnesMask(s: nat, w: nat)
    requires s < Pow2(w)
    ensures BitAnd(s, Pow2(w) - 1, w) == s
  {
    if w > 0 {
      assert (Pow2(w) - 1) / 2 == Pow2(w - 1) - 1;
      AllOnesMask(s / 2, w - 1);
    }
  }

  lemma AtLeast(n: int, d: int)
    requires n >= 1 && d >= 0
    ensures n * d >= d
  {
    assert n * d == (n - 1) * d + d;
  }

  lemma DivModUnique(x: int, d: int, q: int, r: int)
    requires 0 <= r < d && x == q * d + r
    ensures x / d == q && x % d == r
  {
    var q', r' := x / d, x % d;
    assert x == q' * d + r';
    assert (q' - q) * d == q' * d - q * d == r - r';
    if q' > q {
      AtLeast(q' - q, d);
    } else if q' < q {
      AtLeast(q - q', d);
    }
  }

  lemma Below(u: nat, d: nat, r: nat, c: nat)
    requires u < d && r < c
    ensures 0 <= u * c && u * c + r < c * d
  {
    AtLeast(d - u, c);
    assert (d - u) * c == c * d - u * c;
  }

  lemma Distributes(s: nat, d: nat, u: nat, c: nat)
    ensures (s * d + u) * c == s * (c * d) + u * c
  {}

  lemma Composed(x: nat, c: nat, d: nat, q: nat, r: nat, s: nat, u: nat)
    requires x == q * c + r && q == s * d + u && r < c && u < d
    ensures c * d > 0 && x / (c * d) == s
  {
    Below(u, d, r, c);
    Distributes(s, d, u, c);
    DivModUnique(x, c * d, s, u * c + r);
  }

  lemma Divided(x: nat, c: nat)
    requires c > 0
    ensures x == x / c * c + x % c && 0 <= x % c < c && 0 <= x / c
  {}

  lemma DivTwice(x: nat, c: nat, d: nat)
    requires c > 0 && d > 0
    ensures c * d > 0 && x / (c * d) == x / c / d
  {
    Divided(x, c);
    Divided(x / c, d);
    Composed(x, c, d, x / c, x % c, x / c / d, x / c % d);
  }

  lemma ModDoubled(q: nat, b: nat, p: nat)
    requires p > 0 && b < 2
    ensures (2 * q + b) % (2 * p) == 2 * (q % p) + b
  {
    var d, r := q / p, q % p;
    assert 2 * q + b == d * (2 * p) + (2 * r + b);
    DivModUnique(2 * q + b, 2 * p, d, 2 * r + b);
  }

  lemma {:induction false} HighMaskClears(s: nat, k: nat, w: nat)
    requires k <= w && s < Pow2(w)
    ensures Pow2(k) <= Pow2(w)
    ensures BitAnd(s, Pow2(w) - Pow2(k), w) == s - s % Pow2(k)
    decreases k
  {
    if k == 0 {
      AllOnesMask(s, w);
    } else {
      HighMaskClears(s / 2, k - 1, w - 1);
      ModDoubled(s / 2, s % 2, Pow2(k - 1));
    }
  }

  lemma {:induction false} NoBits(s: nat, w: nat)
    ensures BitAnd(0, s, w) == 0
  {
    if w > 0 { NoBits(s / 2, w - 1); }
  }

  /** Masking the low k bits. */
  lemma {:induction false} LowMask(s: nat, k: nat, w: nat)
    requires k <= w
    ensures BitAnd(Pow2(k) - 1, s, w) == s % Pow2(k)
  {
    if k == 0 {
      NoBits(s, w);
    } else {
      LowMask(s / 2, k - 1, w - 1);
      assert (Pow2(k) - 1) / 2 == Pow2(k - 1) - 1;
      ModDoubled(s / 2, s % 2, Pow2(k - 1));
    }
  }

  lemma FloorIsMultiple(x: nat, d: nat)
    requires d > 0
    ensures 0 <= x % d < d && (x - x % d) % d == 0
  {
    var q, r := x / d, x % d;
    assert x - r == q * d + 0;
    DivModUnique(x - r, d, q, 0);
  }

  lemma MaskedFloor(size: Word, align: Word, k: nat)
    requires k < 64 && align == Pow2(k)
    ensures BitAnd(size, TWO_64 - align, 64) == size - size % align
  {
    Pow2Values();
    HighMaskClears(size, k, 64);
  }

  lemma AlignDownMask(size: Word, align: Word)
    requires 0 < align
    ensures AlignDown(size, align) == BitAnd(size, TWO_64 - align, 64)
  {}

  /** For a power of two, alignDown is the largest multiple not above its argument. */
  lemma AlignDownIsFloor(size: Word, align: Word)
    requires IsPowerOfTwo(align)
    ensures 0 < align
    ensures AlignDown(size, align) == size - size % align
    ensures AlignDown(size, align) % align == 0
  {
    var k: nat :| k < 64 && align == Pow2(k);
    hide AlignDown, BitAnd, Pow2, IsPowerOfTwo;
    AlignDownMask(size, align);
    MaskedFloor(size, align, k);
    FloorIsMultiple(size, align);
  }

  /** Nothing weaker than a power of two will do: alignDown yields multiples of `align` for
      every size exactly when `align` is a power of two. (For align == 0 it yields only 0.) */
  lemma AlignedExactlyForPowersOfTwo(align: Word)
    requires align > 0
    ensures (forall size: Word :: AlignDown(size, align) % align == 0) <==> IsPowerOfTwo(align)
  {
    if IsPowerOfTwo(align) {
      forall size: Word ensures AlignDown(size, align) % align == 0 {
        AlignDownIsFloor(size, align);
      }
    } else {
      var top: Word := 0x8000_0000_0000_0000;
      Pow2Values();
      if align <= top {
        TopBitSurvives(TWO_64 - align, 63);
        AlignDownMask(top, align);
        if top % align == 0 {
          DivisorOfPowerIsPower(align, 63);
          assert false;
        }
      } else {
        AlignDownAboveTop(align);
      }
    }
  }

  lemma {:induction false} TopBitSurvives(mask: nat, k: nat)
    requires Pow2(k) <= mask < 2 * Pow2(k)
    ensures BitAnd(Pow2(k), mask, k + 1) == Pow2(k)
  {
    if k > 0 {
      TopBitSurvives(mask / 2, k - 1);
      assert Pow2(k) / 2 == Pow2(k - 1);
    }
  }

  lemma HalfDivides(p: nat, h: nat)
    requires h > 0 && (2 * p) % (2 * h) == 0
    ensures p % h == 0
  {
    ModDoubled(p, 0, h);
  }

  lemma OddDividesHalf(p: nat, a: nat)
    requires a % 2 == 1 && (2 * p) % a == 0
    ensures p % a == 0
  {
    var q, r := p / a, p % a;
    assert p == q * a + r;
    if 2 * r < a {
      DivModUnique(2 * p, a, 2 * q, 2 * r);
    } else {
      DivModUnique(2 * p, a, 2 * q + 1, 2 * r - a);
    }
  }

  lemma {:induction false} DivisorOfPowerIsPower(a: nat, k: nat)
    requires 0 < a && Pow2(k) % a == 0
    ensures exists j: nat :: j <= k && a == Pow2(j)
  {
    if a == 1 {
      assert a == Pow2(0);
    } else if k == 0 {
      DivModUnique(1, a, 0, 1);
    } else if a % 2 == 0 {
      HalfDivides(Pow2(k - 1), a / 2);
      DivisorOfPowerIsPower(a / 2, k - 1);
      var j: nat :| j <= k - 1 && a / 2 == Pow2(j);
      assert a == Pow2(j + 1);
    } else {
      OddDividesHalf(Pow2(k - 1), a);
      DivisorOfPowerIsPower(a, k - 1);
    }
  }

  /** align - 1 has the top bit set; alignDown of the lowest bit left in the mask is too small. */
  lemma AlignDownAboveTop(align: Word)
    requires align > 0x8000_0000_0000_0000
    ensures exists size: Word :: AlignDown(size, align) % align != 0
  {
    var mask := TWO_64 - align;
    assert 0 < mask < Pow2(63) by { Pow2Values(); }
    BitAndSelf(mask, 64);
    AlignDownMask(mask, align);
    DivModUnique(mask, align, 0, mask);
  }

  lemma {:induction false} BitAndSelf(a: nat, w: nat)
    requires a < Pow2(w)
    ensures BitAnd(a, a, w) == a
  {
    if w > 0 { BitAndSelf(a / 2, w - 1); }
  }

  lemma FloorOfSum(size: Word, align: Word) returns (sum: Word)
    requires 0 < align
    ensures sum == if size + align - 1 < TWO_64 then size + align - 1 else size + align - 1 - TWO_64
    ensures AlignUp(size, align) == AlignDown(sum, align)
    ensures 0 <= sum % align < align && (sum < align ==> sum % align == sum)
  {
    sum := (size + align + TWO_64 - 1) % TWO_64;
    FloorIsMultiple(sum, align);
    if sum < align {
      DivModUnique(sum, align, 0, sum);
    }
  }

  /** alignUp is the least multiple not below its argument, unless the addition wraps, and
      then it is 0. */
  lemma AlignUpIsCeiling(size: Word, align: Word)
    requires IsPowerOfTwo(align)
    ensures 0 < align && AlignUp(size, align) % align == 0
    ensures size + align - 1 < TWO_64 ==> size <= AlignUp(size, align) < size + align
    ensures AlignUp(size, align) == 0 <==> size == 0 || size + align - 1 >= TWO_64
  {
    hide AlignDown, AlignUp, IsPowerOfTwo;
    AlignDownIsFloor(size, align);
    var sum := FloorOfSum(size, align);
    AlignDownIsFloor(sum, align);
  }
}
