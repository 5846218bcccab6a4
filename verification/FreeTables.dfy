/** The five redundant tables of tmmgr and the two running totals, and what it means for them
    to describe a given arena. */
module FreeTables {
  import opened Words
  import opened Layout

  type Segments = map<nat, nat>
  type SizeIndex = map<nat, multiset<nat>>

  datatype Tables = Tables(
    byOffset: map<nat, nat>,    // _offset_to_handle
    bySize: SizeIndex,            // _free_offset_by_size
    starts: Segments,             // _free_segment_start
    ends: Segments,               // _free_segment_end
    memFree: Word,
    highWater: Word)

  predicate Has(table: Segments, o: int, s: int) { o in table && table[o] == s }

  predicate EndsAt(table: Segments, e: int, s: int) { e in table && table[e] == s }

  predicate InSize(bySize: SizeIndex, s: int, o: int) { s in bySize && o in bySize[s] }

  /** The three free indices describe the same set of non-empty segments, each once. */
  ghost predicate Indexed(bySize: SizeIndex, starts: Segments, ends: Segments) {
    SizesMatch(bySize, starts) && EndsMatch(starts, ends)
  }

  ghost predicate EndsMatch(starts: Segments, ends: Segments) {
    forall e, s :: EndsAt(ends, e, s) <==> Has(starts, e - s, s)
  }

  ghost predicate SizesMatch(bySize: SizeIndex, starts: Segments) {
    && (forall o, s :: InSize(bySize, s, o) <==> Has(starts, o, s))
    && (forall o, s | InSize(bySize, s, o) :: 0 < s && bySize[s][o] == 1)
    && (forall s | s in bySize :: bySize[s] != multiset{})
  }

  /** The segments are exactly the gaps. */
  ghost predicate GapTable(starts: Segments, used: set<nat>, m: int) {
    && (forall o, s | Has(starts, o, s) :: Gap(used, m, o, s))
    && (forall o, s | Gap(used, m, o, s) :: Has(starts, o, s))
  }

  ghost predicate Inverse(byOffset: map<nat, nat>, live: Live) {
    && (forall h | h in live :: live[h].offset in byOffset && byOffset[live[h].offset] == h)
    && (forall o | o in byOffset :: byOffset[o] in live && live[byOffset[o]].offset == o)
  }

  ghost predicate Represents(t: Tables, v: View) {
    && WellPlaced(v)
    && Inverse(t.byOffset, v.live)
    && Indexed(t.bySize, t.starts, t.ends)
    && GapTable(t.starts, UsedBytes(v.live), v.memSize)
    && t.memFree == v.memSize - |UsedBytes(v.live)|
    && IsHighWater(v.live, t.highWater)
  }

  // ---- the tables are determined by what is live ----

  lemma SameSegments(a: Segments, b: Segments)
    requires forall o, s :: Has(a, o, s) <==> Has(b, o, s)
    ensures a == b
  {
    forall o | o in a ensures o in b && b[o] == a[o] { assert Has(a, o, a[o]); }
    forall o | o in b ensures o in a { assert Has(b, o, b[o]); }
    assert a.Keys == b.Keys;
  }

  lemma SameEnds(starts: Segments, a: Segments, b: Segments)
    requires EndsMatch(starts, a) && EndsMatch(starts, b)
    ensures a == b
  {
    forall e | e in a ensures e in b && b[e] == a[e] { assert EndsAt(a, e, a[e]) && EndsAt(b, e, a[e]); }
    forall e | e in b ensures e in a { assert EndsAt(b, e, b[e]) && EndsAt(a, e, b[e]); }
    assert a.Keys == b.Keys;
  }

  lemma SizesWithin(a: SizeIndex, b: SizeIndex, starts: Segments)
    requires SizesMatch(a, starts) && SizesMatch(b, starts)
    ensures a.Keys <= b.Keys && forall s | s in a :: a[s] == b[s]
  {
    forall s | s in a ensures s in b && a[s] == b[s] {
      var o :| o in a[s];
      assert InSize(a, s, o);
      assert InSize(b, s, o);
      forall p: nat ensures a[s][p] == b[s][p] {
        assert InSize(a, s, p) <==> InSize(b, s, p);
      }
    }
  }

  lemma SameBySize(a: SizeIndex, b: SizeIndex, starts: Segments)
    requires SizesMatch(a, starts) && SizesMatch(b, starts)
    ensures a == b
  {
    SizesWithin(a, b, starts);
    SizesWithin(b, a, starts);
    assert a.Keys == b.Keys;
  }

  lemma HighWaterUnique(live: Live, a: int, b: int)
    requires IsHighWater(live, a) && IsHighWater(live, b)
    ensures a == b
  {}

  lemma SameInverse(a: map<nat, nat>, b: map<nat, nat>, live: Live)
    requires Inverse(a, live) && Inverse(b, live)
    ensures a == b
  {
    forall o | o in a ensures o in b && b[o] == a[o] { assert live[a[o]].offset == o; }
    forall o | o in b ensures o in a { assert live[b[o]].offset == o; }
    assert a.Keys == b.Keys;
  }

  lemma SameStarts(a: Segments, b: Segments, used: set<nat>, m: int)
    requires GapTable(a, used, m) && GapTable(b, used, m)
    ensures a == b
  {
    assert forall o, s :: Has(a, o, s) <==> Gap(used, m, o, s);
    SameSegments(a, b);
  }

  /** All tables and both totals are functions of the memory size and the live ranges. */
  lemma Canonical(a: Tables, b: Tables, v: View)
    requires Represents(a, v) && Represents(b, v)
    ensures a == b
  {
    SameStarts(a.starts, b.starts, UsedBytes(v.live), v.memSize);
    SameEnds(a.starts, a.ends, b.ends);
    SameBySize(a.bySize, b.bySize, a.starts);
    SameInverse(a.byOffset, b.byOffset, v.live);
    HighWaterUnique(v.live, a.highWater, b.highWater);
  }

  // ---- how the segment table follows the gaps ----

  function Put(starts: Segments, o: nat, s: nat): Segments {
    if 0 < s then starts[o := s] else starts
  }

  lemma TableAfterAlloc(starts: Segments, starts': Segments, used: set<nat>, m: int, o: nat, f: nat, n: nat)
    requires GapTable(starts, used, m) && Has(starts, o, f) && 0 < n <= f
    requires starts' == Put(starts - {o}, o + n, f - n)
    ensures GapTable(starts', used + Span(o, o + n), m)
  {
    forall p, s ensures Has(starts', p, s) <==> Gap(used + Span(o, o + n), m, p, s) {
      GapsAfterAlloc(used, m, o, f, n, p, s);
      assert Has(starts, p, s) <==> Gap(used, m, p, s);
    }
  }

  /** The left and right neighbour of the range, if any, and the range become one segment. */
  lemma TableAfterFree(starts: Segments, starts': Segments, used: set<nat>, m: int, o: nat, n: nat, l: nat, r: nat)
    requires GapTable(starts, used, m) && Between(used, m, o, n, l, r)
    requires l <= o
    requires starts' == (starts - {o - l, o + n})[o - l := l + n + r]
    ensures GapTable(starts', used - Span(o, o + n), m)
  {
    forall p, s ensures Has(starts', p, s) <==> Gap(used - Span(o, o + n), m, p, s) {
      GapsAfterFree(used, m, o, n, l, r, p, s);
      assert Has(starts, p, s) <==> Gap(used, m, p, s);
      if Gap(used, m, p, s) {
        assert p !in used && o in used;
        if l != 0 { GapsApart(used, m, p, s, o - l, l); }
      }
    }
  }

  /** The unused bytes at the end of memory start at `last`. */
  ghost predicate LastGap(used: set<nat>, m: int, last: int) {
    && 0 <= last <= m
    && if last == m then m == 0 || m - 1 in used else Gap(used, m, last, m - last)
  }

  lemma TableAfterResize(starts: Segments, starts': Segments, used: set<nat>, m: nat, m': nat, last: nat)
    requires GapTable(starts, used, m)
    requires LastGap(used, m, last) && last <= m' && (forall x | x in used :: x < last)
    requires starts' == Put(starts - {last}, last, m' - last)
    ensures GapTable(starts', used, m')
  {
    forall p, s ensures Has(starts', p, s) <==> Gap(used, m', p, s) {
      GapsAfterResize(used, m, m', last, p, s);
      assert Has(starts, p, s) <==> Gap(used, m, p, s);
      if Gap(used, m, p, s) && last < m { GapsApart(used, m, p, s, last, m - last); }
    }
  }

  lemma SegmentEndingAt(starts: Segments, ends: Segments, used: set<nat>, m: int, e: int) returns (l: int)
    requires GapTable(starts, used, m)
    requires EndsMatch(starts, ends)
    requires 0 <= e <= m && (e == m || e in used)
    ensures l == if e in ends then ends[e] else 0
    ensures if l == 0 then e == 0 || e - 1 in used else Gap(used, m, e - l, l) && Has(starts, e - l, l)
  {
    l := if e in ends then ends[e] else 0;
    if e > 0 && e - 1 !in used {
      var p, s := GapAround(used, m, e - 1);
      assert Has(starts, e - s, s);
      assert EndsAt(ends, e, s);
    } else if e in ends {
      assert EndsAt(ends, e, l);
    }
  }

  lemma SegmentStartingAt(starts: Segments, used: set<nat>, m: int, o: int) returns (r: int)
    requires GapTable(starts, used, m)
    requires 0 <= o <= m && (o == 0 || o - 1 in used)
    ensures r == if o in starts then starts[o] else 0
    ensures if r == 0 then o == m || o in used else Gap(used, m, o, r) && Has(starts, o, r)
  {
    r := if o in starts then starts[o] else 0;
    if o < m && o !in used {
      var p, s := GapAround(used, m, o);
      assert p == o;
      assert Has(starts, o, s);
    } else if o in starts {
      assert Has(starts, o, r);
    }
  }

  lemma OthersEndBelow(v: View, h: nat, k: nat, low: int)
    requires Placed(v) && h in v.live && k in v.live && h != k
    requires v.live[k].End() <= v.live[h].End()
    requires low <= v.live[h].offset && forall x | low <= x < v.live[h].offset :: x !in UsedBytes(v.live)
    ensures v.live[k].End() <= low
  {
    var p := v.live[k];
    assert Separate(v.live, h, k);
    assert p.End() - 1 in p.Bytes();
    assert p.End() - 1 in UsedBytes(v.live);
  }

  /** When the range at the high water mark goes, only the gap to its left needs looking at. */
  lemma HighWaterAfterFree(v: View, h: nat, hw: int, l: int)
    requires Placed(v) && h in v.live && IsHighWater(v.live, hw)
    requires var o := v.live[h].offset;
             if l == 0 then o == 0 || o - 1 in UsedBytes(v.live) else Gap(UsedBytes(v.live), v.memSize, o - l, l)
    ensures IsHighWater(v.live - {h}, if v.live[h].End() == hw then v.live[h].offset - l else hw)
  {
    var live', q := v.live - {h}, v.live[h];
    if q.End() == hw {
      forall k | k in live' ensures live'[k].End() <= q.offset - l {
        OthersEndBelow(v, h, k, q.offset - l);
      }
      if q.offset - l > 0 {
        var k := EndingAt(v, h, q.offset - l);
        assert k in live';
      }
    } else if hw > 0 {
      var k :| k in v.live && v.live[k].End() == hw;
      assert k in live' && live'[k].End() == hw;
    }
  }

  lemma EndingAt(v: View, h: nat, low: int) returns (k: nat)
    requires Placed(v) && h in v.live && low - 1 in UsedBytes(v.live) && low <= v.live[h].offset
    requires low == v.live[h].offset || low !in UsedBytes(v.live)
    ensures k in v.live && k != h && v.live[k].End() == low
  {
    k :| k in v.live && low - 1 in v.live[k].Bytes();
    assert low in v.live[k].Bytes() ==> low in UsedBytes(v.live);
    assert k != h;
    assert Separate(v.live, h, k);
  }

  // ---- tiling and conservation ----

  /** Segments that do not even touch. */
  ghost predicate Apart(starts: Segments) {
    forall o, s, p, q | Has(starts, o, s) && Has(starts, p, q) :: (o == p && s == q) || o + s < p || p + q < o
  }

  /** Each byte of the arena is in exactly one free segment or exactly one live range. */
  ghost predicate Tiles(starts: Segments, v: View) {
    && (forall o, s | Has(starts, o, s) :: 0 < s && o + s <= v.memSize)
    && (forall x | 0 <= x < v.memSize && x !in UsedBytes(v.live) ::
          exists o, s :: Has(starts, o, s) && x in Span(o, o + s))
    && (forall o, s, x | Has(starts, o, s) && x in Span(o, o + s) :: x !in UsedBytes(v.live))
    && Apart(starts)
  }

  lemma TablesTile(starts: Segments, v: View)
    requires Placed(v) && GapTable(starts, UsedBytes(v.live), v.memSize)
    ensures Tiles(starts, v)
  {
    var used := UsedBytes(v.live);
    forall x | 0 <= x < v.memSize && x !in used
      ensures exists o, s :: Has(starts, o, s) && x in Span(o, o + s)
    {
      var o, s := GapAround(used, v.memSize, x);
      assert Has(starts, o, s);
    }
    forall o, s, p, q | Has(starts, o, s) && Has(starts, p, q)
      ensures (o == p && s == q) || o + s < p || p + q < o
    {
      GapsApart(used, v.memSize, o, s, p, q);
    }
  }

  ghost function SumOfSizes(starts: Segments): int {
    if starts.Keys == {} then 0
    else
      var o :| o in starts.Keys;
      starts[o] + SumOfSizes(starts - {o})
  }

  /** `bytes` is the union of the segments. */
  ghost predicate Covers(starts: Segments, bytes: set<nat>) {
    && (forall o, s, x | Has(starts, o, s) && x in Span(o, o + s) :: x in bytes)
    && (forall x | x in bytes :: exists o, s :: Has(starts, o, s) && x in Span(o, o + s))
  }

  lemma CoversRest(starts: Segments, bytes: set<nat>, o: nat, s: nat)
    requires Apart(starts) && Covers(starts, bytes) && Has(starts, o, s)
    ensures Apart(starts - {o}) && Covers(starts - {o}, bytes - Span(o, o + s))
    ensures Span(o, o + s) <= bytes
  {
    var rest := starts - {o};
    assert forall p, q :: Has(rest, p, q) <==> Has(starts, p, q) && p != o;
  }

  lemma CoversNothing(starts: Segments, bytes: set<nat>)
    requires Covers(starts, bytes) && starts.Keys == {}
    ensures bytes == {}
  {
    assert forall o, s :: !Has(starts, o, s);
  }

  lemma {:induction false} SumCountsBytes(starts: Segments, bytes: set<nat>)
    requires Apart(starts) && Covers(starts, bytes)
    ensures SumOfSizes(starts) == |bytes|
    decreases |starts|
  {
    hide Apart, Covers;
    if starts.Keys == {} {
      CoversNothing(starts, bytes);
    } else {
      var o: nat :| o in starts.Keys && SumOfSizes(starts) == starts[o] + SumOfSizes(starts - {o});
      assert Has(starts, o, starts[o]);
      CoversRest(starts, bytes, o, starts[o]);
      SumCountsBytes(starts - {o}, bytes - Span(o, o + starts[o]));
      CountWithout(bytes, o, starts[o]);
    }
  }

  lemma UnusedIsSum(starts: Segments, v: View)
    requires Placed(v) && GapTable(starts, UsedBytes(v.live), v.memSize)
    ensures v.memSize - |UsedBytes(v.live)| == SumOfSizes(starts)
  {
    var used, all := UsedBytes(v.live), Span(0, v.memSize);
    TablesTile(starts, v);
    UsedInside(v);
    assert used <= all;
    assert Covers(starts, all - used);
    SumCountsBytes(starts, all - used);
    SpanSize(0, v.memSize);
  }

  /** Free segments and live ranges tile the arena, free segments never touch, and _mem_free
      is the sum of the sizes of the free segments. */
  lemma RepresentsTiles(t: Tables, v: View)
    requires Represents(t, v)
    ensures Tiles(t.starts, v)
    ensures t.memFree == SumOfSizes(t.starts)
  {
    TablesTile(t.starts, v);
    UnusedIsSum(t.starts, v);
  }
}
