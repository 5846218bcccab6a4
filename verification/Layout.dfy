/** What an arena looks like from outside: the live ranges, and the gaps between them.
    Nothing here mentions the allocator's tables; they are judged against this picture. */
module Layout {
  import opened Words

  ghost predicate Within(lo: int, hi: int, x: int) { lo <= x < hi }

  ghost function Span(lo: nat, hi: nat): (r: set<nat>)
    ensures forall x :: x in r <==> lo <= x < hi
  {
    set x: nat | lo <= x < hi && Within(lo, hi, x)
  }

  lemma {:induction false} SpanSize(lo: nat, hi: nat)
    requires lo <= hi
    ensures |Span(lo, hi)| == hi - lo
    decreases hi - lo
  {
    if lo == hi {
      assert Span(lo, hi) == {};
    } else {
      SpanSize(lo, hi - 1);
      assert Span(lo, hi) == Span(lo, hi - 1) + {hi - 1};
    }
  }

  datatype Range = Range(offset: nat, size: nat) {
    function End(): int { offset + size }

    ghost function Bytes(): set<nat> { Span(offset, End()) }

    ghost predicate Disjoint(other: Range) {
      End() <= other.offset || other.End() <= offset
    }
  }

  type Live = map<nat, Range>

  /** The whole observable state of one arena. */
  datatype View = View(align: Word, memSize: Word, live: Live)

  ghost function UsedBytes(live: Live): set<nat> {
    set h, x | h in live && x in live[h].Bytes() :: x
  }

  /** Every live range is non-empty, aligned and inside the arena, and no two overlap. */
  ghost predicate WellPlaced(v: View) {
    Placed(v) && Aligned(v)
  }

  ghost predicate Placed(v: View) {
    && (forall h | h in v.live :: 0 <= v.live[h].offset && 0 < v.live[h].size && v.live[h].End() <= v.memSize)
    && (forall h, k :: Separate(v.live, h, k))
  }

  ghost predicate Separate(live: Live, h: nat, k: nat) {
    h in live && k in live && h != k ==> live[h].Disjoint(live[k])
  }

  ghost predicate Aligned(v: View) {
    && IsPowerOfTwo(v.align)
    && 0 < v.align
    && v.memSize % v.align == 0
    && (forall h | h in v.live :: AlignedTo(v.live[h], v.align))
  }

  ghost predicate AlignedTo(r: Range, align: Word) {
    0 < align && r.offset % align == 0 && r.size % align == 0
  }

  /** [o, o + s) is a maximal run of unused bytes of [0, m). */
  ghost predicate Gap(used: set<nat>, m: int, o: int, s: int) {
    && 0 <= o && 0 < s && o + s <= m
    && (forall x | o <= x < o + s :: x !in used)
    && (o == 0 || o - 1 in used)
    && (o + s == m || o + s in used)
  }

  /** The largest end of a live range, 0 if there is none. */
  ghost predicate IsHighWater(live: Live, hw: int) {
    && 0 <= hw
    && (forall h | h in live :: live[h].End() <= hw)
    && (hw == 0 || exists h :: h in live && live[h].End() == hw)
  }

  ghost predicate Fits(v: View, n: int) {
    exists o, s :: Gap(UsedBytes(v.live), v.memSize, o, s) && n <= s
  }

  // ---- used bytes ----

  lemma UsedAfterAlloc(live: Live, h: nat, r: Range)
    requires h !in live
    ensures UsedBytes(live[h := r]) == UsedBytes(live) + r.Bytes()
  {
    var live' := live[h := r];
    forall x ensures x in UsedBytes(live') <==> x in UsedBytes(live) || x in r.Bytes() {
      if x in UsedBytes(live) {
        var k :| k in live && x in live[k].Bytes();
        assert x in live'[k].Bytes();
      }
      if x in r.Bytes() { assert x in live'[h].Bytes(); }
    }
  }

  lemma UsedAfterFree(v: View, h: nat)
    requires Placed(v) && h in v.live
    ensures UsedBytes(v.live - {h}) == UsedBytes(v.live) - v.live[h].Bytes()
    ensures v.live[h].Bytes() <= UsedBytes(v.live)
  {
    var live' := v.live - {h};
    forall x | x in UsedBytes(live') ensures x in UsedBytes(v.live) && x !in v.live[h].Bytes() {
      var k :| k in live' && x in live'[k].Bytes();
      assert k in v.live && x in v.live[k].Bytes();
      assert Separate(v.live, h, k);
    }
    forall x | x in UsedBytes(v.live) && x !in v.live[h].Bytes() ensures x in UsedBytes(live') {
      var k :| k in v.live && x in v.live[k].Bytes();
      assert k in live' && x in live'[k].Bytes();
    }
  }

  lemma UsedInside(v: View)
    requires Placed(v)
    ensures forall x | x in UsedBytes(v.live) :: 0 <= x < v.memSize
  {}

  lemma UsedBelowHighWater(live: Live, hw: int)
    requires IsHighWater(live, hw) && forall h | h in live :: 0 <= live[h].offset
    ensures forall x | x in UsedBytes(live) :: 0 <= x < hw
  {}

  lemma UsedCount(live: Live, hw: int)
    requires IsHighWater(live, hw) && forall h | h in live :: 0 <= live[h].offset
    ensures |UsedBytes(live)| <= hw
  {
    UsedBelowHighWater(live, hw);
    SpanSize(0, hw);
    SubsetSmaller(UsedBytes(live), Span(0, hw));
  }

  lemma {:induction false} SubsetSmaller<T>(a: set<T>, b: set<T>)
    requires a <= b
    ensures |a| <= |b|
    ensures |a| == |b| ==> a == b
  {
    assert b == a + (b - a);
    assert a !! (b - a);
  }

  lemma CountWith(used: set<nat>, o: nat, n: nat)
    requires forall x | o <= x < o + n :: x !in used
    ensures |used + Span(o, o + n)| == |used| + n
  {
    SpanSize(o, o + n);
    assert used !! Span(o, o + n);
  }

  lemma CountWithout(used: set<nat>, o: nat, n: nat)
    requires forall x | o <= x < o + n :: x in used
    ensures |used - Span(o, o + n)| == |used| - n
  {
    SpanSize(o, o + n);
    assert Span(o, o + n) <= used;
  }

  lemma DisjointSmaller<T>(a: set<T>, b: set<T>, c: set<T>)
    requires a !! b && a <= c && b <= c
    ensures |a| + |b| <= |c|
  {
    SubsetSmaller(a + b, c);
    assert |a + b| == |a| + |b|;
  }

  // ---- gaps ----

  /** Two gaps that share a byte are the same gap. */
  lemma GapsApart(used: set<nat>, m: int, o: int, s: int, o': int, s': int)
    requires Gap(used, m, o, s) && Gap(used, m, o', s')
    ensures (o == o' && s == s') || o + s < o' || o' + s' < o
  {
    assert o <= o' + s' < o + s ==> o' + s' !in used;
    assert o' <= o + s < o' + s' ==> o + s !in used;
    assert o < o' <= o + s ==> o' - 1 !in used;
    assert o' < o <= o' + s' ==> o - 1 !in used;
  }

  lemma {:induction false} RunRight(used: set<nat>, m: int, x: int) returns (e: int)
    requires 0 <= x < m && x !in used
    ensures x < e <= m && (forall y | x <= y < e :: y !in used) && (e == m || e in used)
    decreases m - x
  {
    e := x + 1;
    if x + 1 < m && x + 1 !in used { e := RunRight(used, m, x + 1); }
  }

  lemma {:induction false} RunLeft(used: set<nat>, x: int) returns (o: int)
    requires 0 <= x && x !in used
    ensures 0 <= o <= x && (forall y | o <= y <= x :: y !in used) && (o == 0 || o - 1 in used)
    decreases x
  {
    o := x;
    if 0 < x && x - 1 !in used { o := RunLeft(used, x - 1); }
  }

  /** Every unused byte lies in a gap. */
  lemma GapAround(used: set<nat>, m: int, x: int) returns (o: int, s: int)
    requires 0 <= x < m && x !in used
    ensures Gap(used, m, o, s) && o <= x < o + s
  {
    o := RunLeft(used, x);
    var e := RunRight(used, m, x);
    s := e - o;
    forall y | o <= y < o + s ensures y !in used {}
  }

  // ---- how the three operations change the gaps ----

  /** Carving [o, o + n) off the front of the gap (o, f) leaves the rest of it, if any. */
  lemma GapsAfterAlloc(used: set<nat>, m: int, o: int, f: int, n: int, p: int, s: int)
    requires Gap(used, m, o, f) && 0 < n <= f
    ensures Gap(used + Span(o, o + n), m, p, s)
       <==> (Gap(used, m, p, s) && p != o) || (n < f && p == o + n && s == f - n)
  {
    var used' := used + Span(o, o + n);
    assert n < f ==> Gap(used', m, o + n, f - n);
    if Gap(used', m, p, s) {
      if n < f && p <= o + f && o + n <= p + s {
        GapsApart(used', m, p, s, o + n, f - n);
      } else {
        assert p < o ==> p + s <= o;
        assert p !in used';
        assert p + s - 1 !in used';
        assert p + s == o ==> o - 1 in used';
        assert Gap(used, m, p, s);
      }
    }
    if Gap(used, m, p, s) && p != o {
      GapsApart(used, m, o, f, p, s);
      assert Gap(used', m, p, s);
    }
  }

  /** [o, o + n) is in use, with exactly `l` unused bytes just before it and `r` just after it. */
  ghost predicate Between(used: set<nat>, m: int, o: int, n: int, l: int, r: int) {
    && 0 <= o && 0 < n && o + n <= m
    && (forall x | o <= x < o + n :: x in used)
    && (if l == 0 then o == 0 || o - 1 in used else Gap(used, m, o - l, l))
    && (if r == 0 then o + n == m || o + n in used else Gap(used, m, o + n, r))
  }

  lemma MergedGap(used: set<nat>, m: int, o: int, n: int, l: int, r: int)
    requires Between(used, m, o, n, l, r)
    ensures Gap(used - Span(o, o + n), m, o - l, l + n + r)
  {}

  lemma GapSurvivesFree(used: set<nat>, m: int, o: int, n: int, l: int, r: int, p: int, s: int)
    requires Between(used, m, o, n, l, r)
    requires Gap(used, m, p, s) && p + s != o && p != o + n
    ensures Gap(used - Span(o, o + n), m, p, s)
  {
    assert p + s < o || o + n < p by {
      assert p !in used && p + s - 1 !in used && o in used;
    }
  }

  lemma GapFromFree(used: set<nat>, m: int, o: int, n: int, l: int, r: int, p: int, s: int)
    requires Between(used, m, o, n, l, r)
    requires Gap(used - Span(o, o + n), m, p, s)
    ensures (Gap(used, m, p, s) && p + s != o && p != o + n) || (p == o - l && s == l + n + r)
  {
    var used' := used - Span(o, o + n);
    if p + s < o || o + n < p {
      forall x | p <= x < p + s ensures x !in used { assert x !in used'; }
    } else {
      MergedGap(used, m, o, n, l, r);
      GapsApart(used', m, p, s, o - l, l + n + r);
    }
  }

  /** Returning a range merges it with the gaps it touches; every other gap stays. */
  lemma GapsAfterFree(used: set<nat>, m: int, o: int, n: int, l: int, r: int, p: int, s: int)
    requires Between(used, m, o, n, l, r)
    ensures Gap(used - Span(o, o + n), m, p, s)
       <==> (Gap(used, m, p, s) && p + s != o && p != o + n) || (p == o - l && s == l + n + r)
  {
    if Gap(used - Span(o, o + n), m, p, s) {
      GapFromFree(used, m, o, n, l, r, p, s);
    } else if Gap(used, m, p, s) && p + s != o && p != o + n {
      GapSurvivesFree(used, m, o, n, l, r, p, s);
    } else {
      MergedGap(used, m, o, n, l, r);
    }
  }

  /** Moving the end of the arena, above every used byte, changes only the gap at the end. */
  lemma GapsAfterResize(used: set<nat>, m: int, m': int, last: int, p: int, s: int)
    requires 0 <= m && 0 <= m' && (forall x | x in used :: x < m && x < m')
    requires 0 <= last <= m && last <= m'
    requires if last == m then m == 0 || m - 1 in used else Gap(used, m, last, m - last)
    ensures Gap(used, m', p, s)
       <==> (Gap(used, m, p, s) && p + s != m) || (last < m' && p == last && s == m' - last)
  {
    if Gap(used, m', p, s) {
      if p + s == m' {
        assert p < last ==> last - 1 !in used;
        assert last < p ==> p - 1 in used;
      } else {
        assert p + s in used;
      }
    }
    if Gap(used, m, p, s) && p + s != m { assert p + s in used; }
  }
}
