/** src/mmgr/tmmgr.cpp: the best-fit allocator over one arena. */
module TmmgrModule {
  import opened Wrappers
  import opened Words
  import opened Layout
  import opened FreeTables
  import opened Arena

  datatype Missing = MissingSize(size: nat) | MissingOffset(offset: nat)

  function WithoutOffset(bySize: SizeIndex, s: nat, o: nat): SizeIndex
    requires s in bySize
  {
    var offsets := bySize[s] - multiset{o};
    if offsets == multiset{} then bySize - {s} else bySize[s := offsets]
  }

  function WithOffset(bySize: SizeIndex, s: nat, o: nat): SizeIndex {
    bySize[s := (if s in bySize then bySize[s] else multiset{}) + multiset{o}]
  }

  lemma InSizeWithout(bySize: SizeIndex, s: nat, o: nat)
    requires s in bySize && bySize[s][o] == 1
    ensures forall p, q :: InSize(WithoutOffset(bySize, s, o), q, p) <==> InSize(bySize, q, p) && !(p == o && q == s)
  {
    var bySize' := WithoutOffset(bySize, s, o);
    forall p, q ensures InSize(bySize', q, p) <==> InSize(bySize, q, p) && !(p == o && q == s) {
      if q == s && InSize(bySize, q, p) && p != o { assert (bySize[s] - multiset{o})[p] == bySize[s][p]; }
    }
  }

  lemma EndsWithout(starts: Segments, ends: Segments, o: nat, s: nat)
    requires EndsMatch(starts, ends) && Has(starts, o, s)
    ensures EndsMatch(starts - {o}, ends - {o + s})
  {
    var starts', ends' := starts - {o}, ends - {o + s};
    assert EndsAt(ends, o + s, s);
    forall e, q ensures EndsAt(ends', e, q) <==> Has(starts', e - q, q) {
      assert EndsAt(ends', e, q) <==> EndsAt(ends, e, q) && e != o + s;
      assert Has(starts', e - q, q) <==> Has(starts, e - q, q) && e - q != o;
    }
  }

  lemma SizesWithout(bySize: SizeIndex, starts: Segments, o: nat, s: nat)
    requires SizesMatch(bySize, starts) && Has(starts, o, s)
    ensures InSize(bySize, s, o)
    ensures SizesMatch(WithoutOffset(bySize, s, o), starts - {o})
  {
    assert InSize(bySize, s, o);
    InSizeWithout(bySize, s, o);
    assert forall p, q :: Has(starts - {o}, p, q) <==> Has(starts, p, q) && p != o;
  }

  lemma DeleteKeepsIndexed(bySize: SizeIndex, starts: Segments, ends: Segments, o: nat, s: nat)
    requires Indexed(bySize, starts, ends) && Has(starts, o, s)
    ensures InSize(bySize, s, o)
    ensures Indexed(WithoutOffset(bySize, s, o), starts - {o}, ends - {o + s})
  {
    SizesWithout(bySize, starts, o, s);
    EndsWithout(starts, ends, o, s);
  }

  lemma EndsWith(starts: Segments, ends: Segments, o: nat, s: nat)
    requires EndsMatch(starts, ends) && o !in starts && o + s !in ends
    ensures EndsMatch(starts[o := s], ends[o + s := s])
  {
    var starts', ends' := starts[o := s], ends[o + s := s];
    forall e, q ensures EndsAt(ends', e, q) <==> Has(starts', e - q, q) {
      assert EndsAt(ends', e, q) <==> EndsAt(ends, e, q) || (e == o + s && q == s);
      assert Has(starts', e - q, q) <==> Has(starts, e - q, q) || (e - q == o && q == s);
    }
  }

  lemma InSizeWith(bySize: SizeIndex, s: nat, o: nat, q: nat, p: nat)
    requires InSize(WithOffset(bySize, s, o), q, p) && !InSize(bySize, s, o)
    ensures InSize(bySize, q, p) || (p == o && q == s)
    ensures WithOffset(bySize, s, o)[q][p] == if p == o && q == s then 1 else bySize[q][p]
  {}

  lemma SizesWith(bySize: SizeIndex, starts: Segments, o: nat, s: nat)
    requires SizesMatch(bySize, starts) && 0 < s && o !in starts
    ensures SizesMatch(WithOffset(bySize, s, o), starts[o := s])
  {
    var bySize', starts' := WithOffset(bySize, s, o), starts[o := s];
    assert !InSize(bySize, s, o) by { assert !Has(starts, o, s); }
    forall p, q ensures InSize(bySize', q, p) <==> Has(starts', p, q) {
      assert InSize(bySize, q, p) <==> Has(starts, p, q);
    }
    forall p, q | InSize(bySize', q, p) ensures 0 < q && bySize'[q][p] == 1 {
      InSizeWith(bySize, s, o, q, p);
    }
    forall q | q in bySize' ensures bySize'[q] != multiset{} {
      assert q == s ==> o in bySize'[q];
    }
  }

  lemma InsertKeepsIndexed(bySize: SizeIndex, starts: Segments, ends: Segments, o: nat, s: nat)
    requires Indexed(bySize, starts, ends) && 0 < s
    requires o !in starts && o + s !in ends
    ensures Indexed(WithOffset(bySize, s, o), starts[o := s], ends[o + s := s])
  {
    SizesWith(bySize, starts, o, s);
    EndsWith(starts, ends, o, s);
  }

  // ---- the tables still describe the arena after each operation ----

  lemma InitialRepresents(t: Tables, v: View)
    requires IsPowerOfTwo(v.align) && v.live == map[] && (exists size: Word :: v.memSize == AlignDown(size, v.align))
    requires t.byOffset == map[] && Indexed(t.bySize, t.starts, t.ends)
    requires t.starts == if 0 < v.memSize then map[0 := v.memSize] else map[]
    requires t.memFree == v.memSize && t.highWater == 0
    ensures Represents(t, v)
  {
    var size: Word :| v.memSize == AlignDown(size, v.align);
    AlignDownIsFloor(size, v.align);
    assert UsedBytes(v.live) == {};
    forall o, s ensures Has(t.starts, o, s) <==> Gap({}, v.memSize, o, s) {}
  }

  /** Where the last free segment starts; the end of memory if the last byte is in use. */
  lemma LastSegment(t: Tables, v: View) returns (last: nat)
    requires Represents(t, v)
    ensures last == v.memSize - if v.memSize in t.ends then t.ends[v.memSize] else 0
    ensures LastGap(UsedBytes(v.live), v.memSize, last)
    ensures last < v.memSize ==> Has(t.starts, last, v.memSize - last)
    ensures t.highWater == last
  {
    hide Represents, WellPlaced, Placed, Aligned, Inverse, SizesMatch, EndsMatch, GapTable, IsHighWater, UsedBytes, Gap;
    Open(t, v);
    var l := SegmentEndingAt(t.starts, t.ends, UsedBytes(v.live), v.memSize, v.memSize);
    last := LastGapOf(t.starts, UsedBytes(v.live), v.memSize, l);
    HighWaterIsLast(v, t.highWater, last);
  }

  lemma LastGapOf(starts: Segments, used: set<nat>, m: nat, l: int) returns (last: nat)
    requires GapTable(starts, used, m)
    requires if l == 0 then m == 0 || m - 1 in used else Gap(used, m, m - l, l) && Has(starts, m - l, l)
    ensures last == m - l && LastGap(used, m, last) && (last < m ==> Has(starts, last, m - last))
  {
    last := m - l;
  }

  lemma HighWaterIsLast(v: View, hw: int, last: nat)
    requires Placed(v) && IsHighWater(v.live, hw) && LastGap(UsedBytes(v.live), v.memSize, last)
    ensures hw == last
  {
    if hw > 0 {
      var h :| h in v.live && v.live[h].End() == hw;
      assert hw - 1 in v.live[h].Bytes();
      assert hw - 1 in UsedBytes(v.live);
    }
    if last > 0 {
      var k :| k in v.live && last - 1 in v.live[k].Bytes();
    }
  }

  /** No segment but the last ends inside it or beyond the end of memory, and none starts at
      the end of memory. */
  lemma EndFresh(starts: Segments, ends: Segments, used: set<nat>, m: int, last: int, e: int)
    requires EndsMatch(starts, ends) && GapTable(starts, used, m) && LastGap(used, m, last)
    ensures m !in starts
    ensures last < e != m ==> e !in ends
  {
    if m in starts { assert Has(starts, m, starts[m]); }
    if last < e != m && e in ends {
      var q: int := ends[e];
      assert EndsAt(ends, e, q);
      if last < m { GapsApart(used, m, last, m - last, e - q, q); }
    }
  }

  lemma Open(t: Tables, v: View)
    requires Represents(t, v)
    ensures WellPlaced(v) && Placed(v) && Aligned(v) && 0 < v.align && IsPowerOfTwo(v.align)
    ensures Inverse(t.byOffset, v.live)
    ensures Indexed(t.bySize, t.starts, t.ends)
    ensures GapTable(t.starts, UsedBytes(v.live), v.memSize)
    ensures t.memFree == v.memSize - |UsedBytes(v.live)|
    ensures IsHighWater(v.live, t.highWater)
  {}

  lemma Describe(t: Tables, v: View, used: set<nat>)
    requires used == UsedBytes(v.live)
    requires Placed(v) && Aligned(v)
    requires Inverse(t.byOffset, v.live)
    requires Indexed(t.bySize, t.starts, t.ends)
    requires GapTable(t.starts, used, v.memSize)
    requires t.memFree == v.memSize - |used|
    requires IsHighWater(v.live, t.highWater)
    ensures Represents(t, v)
  {}

  lemma ResizeRepresents(t: Tables, t': Tables, v: View, v': View, last: nat)
    requires Represents(t, v) && v' == v.(memSize := v'.memSize) && v'.memSize % v.align == 0
    requires LastGap(UsedBytes(v.live), v.memSize, last) && t.highWater == last <= v'.memSize
    requires Indexed(t'.bySize, t'.starts, t'.ends)
    requires t'.starts == Put(t.starts - {last}, last, v'.memSize - last)
    requires t'.byOffset == t.byOffset && t'.highWater == t.highWater
    requires t'.memFree == t.memFree + v'.memSize - v.memSize
    ensures Represents(t', v')
  {
    hide Represents, WellPlaced, Placed, Aligned, Inverse, SizesMatch, EndsMatch, GapTable, IsHighWater, UsedBytes;
    Open(t, v);
    UsedBelowHighWater(v.live, t.highWater);
    TableAfterResize(t.starts, t'.starts, UsedBytes(v.live), v.memSize, v'.memSize, last);
    ResizedPlaced(v, v', t.highWater);
    Describe(t', v', UsedBytes(v.live));
  }

  lemma ResizedPlaced(v: View, v': View, hw: int)
    requires Placed(v) && IsHighWater(v.live, hw) && hw <= v'.memSize && v' == v.(memSize := v'.memSize)
    requires Aligned(v) && v'.memSize % v.align == 0
    ensures Placed(v') && Aligned(v')
  {}

  lemma InverseAfterAlloc(byOffset: map<nat, nat>, live: Live, h: nat, r: Range)
    requires Inverse(byOffset, live) && h !in live
    requires forall k | k in live :: live[k].offset != r.offset
    ensures r.offset !in byOffset
    ensures Inverse(byOffset[r.offset := h], live[h := r])
  {}

  lemma InverseAfterFree(byOffset: map<nat, nat>, live: Live, h: nat)
    requires Inverse(byOffset, live) && h in live
    ensures Inverse(byOffset - {live[h].offset}, live - {h})
  {}

  lemma NoneStartsInGap(v: View, o: nat, f: nat)
    requires Placed(v) && Gap(UsedBytes(v.live), v.memSize, o, f)
    ensures forall k | k in v.live :: v.live[k].offset != o
  {
    forall k | k in v.live ensures v.live[k].offset != o {
      GapSeparate(v, k, o, f);
    }
  }

  lemma HighWaterAfterAlloc(live: Live, h: nat, r: Range, hw: nat)
    requires IsHighWater(live, hw) && h !in live && 0 < r.size
    ensures IsHighWater(live[h := r], if hw < r.End() then r.End() else hw)
  {
    var live' := live[h := r];
    if hw < r.End() {
      assert live'[h].End() == r.End();
    } else {
      var k :| k in live && live[k].End() == hw;
      assert k in live' && live'[k].End() == hw;
    }
  }

  lemma AllocKeepsShape(v: View, v': View, byOffset: map<nat, nat>, hw: nat, h: nat, r: Range, f: nat)
    requires WellPlaced(v) && Inverse(byOffset, v.live) && IsHighWater(v.live, hw) && h !in v.live
    requires Gap(UsedBytes(v.live), v.memSize, r.offset, f) && 0 < r.size <= f && r.size % v.align == 0
    requires v' == v.(live := v.live[h := r])
    ensures Placed(v') && Aligned(v')
    ensures Inverse(byOffset[r.offset := h], v'.live)
    ensures IsHighWater(v'.live, if hw < r.End() then r.End() else hw)
  {
    AllocPlaced(v, h, r.size, r.offset, f);
    NoneStartsInGap(v, r.offset, f);
    InverseAfterAlloc(byOffset, v.live, h, r);
    HighWaterAfterAlloc(v.live, h, r, hw);
  }

  lemma AllocKeepsTable(starts: Segments, starts': Segments, live: Live, m: nat, h: nat, o: nat, f: nat, n: nat)
    requires GapTable(starts, UsedBytes(live), m) && Has(starts, o, f) && 0 < n <= f && h !in live
    requires starts' == Put(starts - {o}, o + n, f - n)
    ensures GapTable(starts', UsedBytes(live[h := Range(o, n)]), m)
    ensures |UsedBytes(live[h := Range(o, n)])| == |UsedBytes(live)| + n
  {
    var used := UsedBytes(live);
    TableAfterAlloc(starts, starts', used, m, o, f, n);
    UsedAfterAlloc(live, h, Range(o, n));
    assert Range(o, n).Bytes() == Span(o, o + n);
    CountWith(used, o, n);
  }

  lemma AllocRepresents(t: Tables, t': Tables, v: View, v': View, h: nat, r: Range, f: nat)
    requires Represents(t, v) && h !in v.live && Has(t.starts, r.offset, f)
    requires 0 < r.size <= f && r.size % v.align == 0
    requires v' == v.(live := v.live[h := r])
    requires Indexed(t'.bySize, t'.starts, t'.ends)
    requires t'.starts == Put(t.starts - {r.offset}, r.End(), f - r.size)
    requires t'.byOffset == t.byOffset[r.offset := h]
    requires t'.memFree == t.memFree - r.size
    requires t'.highWater == if t.highWater < r.End() then r.End() else t.highWater
    ensures Represents(t', v')
  {
    hide Represents, WellPlaced, Placed, Aligned, Inverse, SizesMatch, EndsMatch, GapTable, IsHighWater, UsedBytes;
    Open(t, v);
    AllocKeepsShape(v, v', t.byOffset, t.highWater, h, r, f);
    AllocKeepsTable(t.starts, t'.starts, v.live, v.memSize, h, r.offset, f, r.size);
    assert r == Range(r.offset, r.size);
    Describe(t', v', UsedBytes(v'.live));
  }

  /** The sizes of the free segments to the left and right of a live range, 0 if there is none. */
  ghost function LeftOf(ends: Segments, o: nat): nat { if o in ends then ends[o] else 0 }

  ghost function RightOf(starts: Segments, e: nat): nat { if e in starts then starts[e] else 0 }

  lemma Neighbours(starts: Segments, ends: Segments, used: set<nat>, m: nat, o: nat, n: nat)
    requires EndsMatch(starts, ends) && GapTable(starts, used, m)
    requires 0 < n && o + n <= m && forall x | o <= x < o + n :: x in used
    ensures Between(used, m, o, n, LeftOf(ends, o), RightOf(starts, o + n))
    ensures o in ends ==> 0 < ends[o] <= o && Has(starts, o - ends[o], ends[o])
    ensures o + n in starts ==> 0 < starts[o + n] && o + n + starts[o + n] <= m
    ensures o !in starts
    ensures RightOf(starts, o + n) == 0 ==> o + n !in ends
  {
    assert o in used && o + n - 1 in used;
    var l := SegmentEndingAt(starts, ends, used, m, o);
    var r := SegmentStartingAt(starts, used, m, o + n);
    if o in ends { assert EndsAt(ends, o, ends[o]); }
    if o in starts { assert Has(starts, o, starts[o]); }
    if o + n in starts { assert Has(starts, o + n, starts[o + n]); }
    if o + n in ends {
      assert EndsAt(ends, o + n, ends[o + n]);
    }
  }

  lemma FreeKeepsTable(starts: Segments, starts': Segments, ends: Segments, used: set<nat>, m: nat, o: nat, n: nat,
          l: nat, r: nat)
    requires GapTable(starts, used, m) && EndsMatch(starts, ends)
    requires 0 < n && o + n <= m && forall x | o <= x < o + n :: x in used
    requires l == LeftOf(ends, o) && r == RightOf(starts, o + n) && l <= o
    requires starts' == (starts - {o - l, o + n})[o - l := l + n + r]
    ensures GapTable(starts', used - Span(o, o + n), m)
    ensures |used - Span(o, o + n)| == |used| - n
    ensures Between(used, m, o, n, l, r)
  {
    Neighbours(starts, ends, used, m, o, n);
    TableAfterFree(starts, starts', used, m, o, n, l, r);
    CountWithout(used, o, n);
  }

  lemma LiveInside(t: Tables, v: View, h: nat)
    requires Represents(t, v) && h in v.live
    ensures 0 < v.live[h].size && v.live[h].End() <= v.memSize
    ensures forall x | v.live[h].offset <= x < v.live[h].End() :: x in UsedBytes(v.live)
    ensures t.memFree + v.live[h].size <= v.memSize
    ensures LeftOf(t.ends, v.live[h].offset) <= v.live[h].offset
  {
    var used, r := UsedBytes(v.live), v.live[h];
    UsedAfterFree(v, h);
    CountWithout(used, r.offset, r.size);
    Neighbours(t.starts, t.ends, used, v.memSize, r.offset, r.size);
  }

  lemma FreeRepresents(t: Tables, t': Tables, v: View, v': View, h: nat, l: nat, r: nat)
    requires Represents(t, v) && h in v.live && v' == v.(live := v.live - {h})
    requires l == LeftOf(t.ends, v.live[h].offset) && r == RightOf(t.starts, v.live[h].End()) && l <= v.live[h].offset
    requires Indexed(t'.bySize, t'.starts, t'.ends)
    requires t'.starts
             == (t.starts - {v.live[h].offset - l, v.live[h].End()})[v.live[h].offset - l := l + v.live[h].size + r]
    requires t'.byOffset == t.byOffset - {v.live[h].offset}
    requires t'.memFree == t.memFree + v.live[h].size
    requires t'.highWater == if v.live[h].End() == t.highWater then v.live[h].offset - l else t.highWater
    ensures Represents(t', v')
  {
    hide Represents, WellPlaced, Placed, Aligned, Inverse, SizesMatch, EndsMatch, GapTable, IsHighWater, UsedBytes;
    Open(t, v);
    FreePlaced(v, h);
    InverseAfterFree(t.byOffset, v.live, h);
    UsedAfterFree(v, h);
    FreeKeepsTable(t.starts, t'.starts, t.ends, UsedBytes(v.live), v.memSize, v.live[h].offset, v.live[h].size, l, r);
    HighWaterAfterFree(v, h, t.highWater, l);
    Describe(t', v', UsedBytes(v.live) - v.live[h].Bytes());
  }

  lemma SegmentInside(t: Tables, v: View, o: nat, f: nat)
    requires Represents(t, v) && InSize(t.bySize, f, o)
    ensures Has(t.starts, o, f) && EndsAt(t.ends, o + f, f) && o + f <= v.memSize
  {
    assert Has(t.starts, o, f);
    assert EndsAt(t.ends, o + f, f);
    assert Gap(UsedBytes(v.live), v.memSize, o, f);
  }

  /** Neither key of the remainder of a carved segment is taken. */
  lemma RestFresh(t: Tables, v: View, o: nat, f: nat, n: nat)
    requires Represents(t, v) && Has(t.starts, o, f) && 0 < n < f
    ensures o + n !in t.starts
  {
    assert o + n - 1 !in UsedBytes(v.live);
    var p := o + n;
    assert forall s :: !Gap(UsedBytes(v.live), v.memSize, p, s);
    assert p in t.starts ==> Has(t.starts, p, t.starts[p]);
  }

  // ---- the size index finds a best fit ----

  /** lower_bound finds an entry. */
  predicate Stocked(bySize: SizeIndex, n: int) {
    exists s :: s in bySize && n <= s
  }

  lemma FitsBySize(t: Tables, v: View, n: int)
    requires Represents(t, v)
    ensures Fits(v, n) <==> Stocked(t.bySize, n)
    ensures forall s | s in t.bySize :: t.bySize[s] != multiset{}
  {
    var used := UsedBytes(v.live);
    if o, s :| Gap(used, v.memSize, o, s) && n <= s {
      assert Has(t.starts, o, s);
      assert InSize(t.bySize, s, o);
    }
    if s :| s in t.bySize && n <= s {
      var o :| o in t.bySize[s];
      assert InSize(t.bySize, s, o);
      assert Gap(used, v.memSize, o, s);
    }
  }

  predicate LowerBound(keys: set<nat>, n: nat, l: nat) {
    l in keys && n <= l && forall s | s in keys && n <= s :: l <= s
  }

  /** std::map::lower_bound, as a scan of the keys. */
  method FindLowerBound(keys: set<nat>, n: nat) returns (l: nat)
    requires exists s :: s in keys && n <= s
    ensures l in keys && n <= l && LowerBound(keys, n, l)
  {
    l :| l in keys && n <= l;
    var rest := keys - {l};
    while rest != {}
      invariant l in keys && n <= l
      invariant rest <= keys && forall s | s in keys && n <= s && s < l :: s in rest
      decreases rest
    {
      var s :| s in rest;
      rest := rest - {s};
      if n <= s < l { l := s; }
    }
  }

  lemma LeastIsBestFit(t: Tables, v: View, n: nat, o: nat, least: nat)
    requires Represents(t, v) && InSize(t.bySize, least, o) && LowerBound(t.bySize.Keys, n, least)
    ensures BestFit(v, n, o, least)
  {
    forall p, g | Gap(UsedBytes(v.live), v.memSize, p, g) && n <= g ensures least <= g {
      assert Has(t.starts, p, g);
      assert InSize(t.bySize, g, p);
    }
    assert Has(t.starts, o, least);
  }

  class Tmmgr {
    var live: Live                 // _handle_to_offset_and_size
    var byOffset: map<nat, nat>
    var bySize: SizeIndex
    var starts: Segments
    var ends: Segments
    const align: Word
    var memSize: Word
    var memFree: Word
    var highWater: Word

    ghost function Abs(): View reads this { View(align, memSize, live) }

    ghost function Index(): Tables reads this {
      Tables(byOffset, bySize, starts, ends, memFree, highWater)
    }

    ghost predicate Valid() reads this { Represents(Index(), Abs()) }

    method DeleteFreeSegment(offset: nat, size: nat) returns (r: Result<(), Missing>)
      requires Indexed(bySize, starts, ends)
      modifies `bySize, `starts, `ends
      ensures Indexed(bySize, starts, ends)
      ensures r.Ok? <==> old(Has(starts, offset, size))
      ensures r.Ok? ==> starts == old(starts) - {offset} && ends == old(ends) - {offset + size}
      ensures r.Err? ==> bySize == old(bySize) && starts == old(starts) && ends == old(ends)
    {
      if size !in bySize {
        return Err(MissingSize(size));
      }
      if offset !in bySize[size] {
        return Err(MissingOffset(offset));
      }
      assert InSize(bySize, size, offset);
      DeleteKeepsIndexed(bySize, starts, ends, offset, size);
      bySize := WithoutOffset(bySize, size, offset);
      starts := starts - {offset};
      ends := ends - {offset + size};
      return Ok(());
    }

    /** The freshness of both keys is what makes each `emplace` an insertion. */
    method InsertFreeSegment(offset: nat, size: nat)
      requires Indexed(bySize, starts, ends)
      requires 0 < size ==> offset !in starts && offset + size !in ends
      modifies `bySize, `starts, `ends
      ensures Indexed(bySize, starts, ends)
      ensures starts == if 0 < size then old(starts)[offset := size] else old(starts)
      ensures ends == if 0 < size then old(ends)[offset + size := size] else old(ends)
    {
      if 0 < size {
        InsertKeepsIndexed(bySize, starts, ends, offset, size);
        bySize := WithOffset(bySize, size, offset);
        starts := starts[offset := size];
        ends := ends[offset + size := size];
      }
    }

    constructor (size: Word, align: Word)
      requires IsPowerOfTwo(align)
      ensures Valid() && Abs() == View(align, AlignDown(size, align), map[])
    {
      this.align := align;
      memSize := AlignDown(size, align);
      memFree := AlignDown(size, align);
      highWater := 0;
      live, byOffset, bySize, starts, ends := map[], map[], map[], map[], map[];
      new;
      InsertFreeSegment(0, memSize);
      InitialRepresents(Index(), Abs());
    }

    /** The table update of resize: stretch or shrink the segment at the end, or add one. */
    method MoveEnd(oldSize: Word, newSize: Word, ghost used: set<nat>, ghost last: nat)
      requires Indexed(bySize, starts, ends) && GapTable(starts, used, oldSize)
      requires LastGap(used, oldSize, last) && last == oldSize - if oldSize in ends then ends[oldSize] else 0
      requires last <= newSize != oldSize
      modifies `bySize, `starts, `ends
      ensures Indexed(bySize, starts, ends)
      ensures starts == Put(old(starts) - {last}, last, newSize - last)
    {
      var delta: Word := if newSize > oldSize then newSize - oldSize else oldSize - newSize;
      if oldSize in ends {
        var freeSize := ends[oldSize];
        assert EndsAt(ends, oldSize, freeSize);
        assert newSize > oldSize || delta <= freeSize;
        var newFreeSize: Word := if newSize > oldSize then freeSize + delta else freeSize - delta;
        var offsetStart: Word := oldSize - freeSize;
        EndFresh(starts, ends, used, oldSize, last, newSize);
        var d := DeleteFreeSegment(offsetStart, freeSize);
        assert d.Ok?;
        InsertFreeSegment(offsetStart, newFreeSize);
        assert offsetStart == last && newFreeSize == newSize - last;
        assert starts == Put(old(starts) - {last}, last, newSize - last);
      } else {
        assert newSize > oldSize;
        EndFresh(starts, ends, used, oldSize, last, newSize);
        InsertFreeSegment(oldSize, delta);
        assert starts == Put(old(starts) - {last}, last, newSize - last);
      }
    }

    method Resize(newSize: Word) returns (r: Result<(), Error>)
      requires Valid()
      modifies this
      ensures Valid() && ResizeStep(old(Abs()), newSize, Abs(), r)
    {
      hide Represents, WellPlaced, Placed, Aligned, Inverse, SizesMatch, EndsMatch, GapTable, IsHighWater,
           UsedBytes, HighWater, AlignDown, IsPowerOfTwo;
      Open(Index(), Abs());
      var aligned := AlignDown(newSize, align);
      HighWaterUnique(live, highWater, HighWater(live));
      if aligned < memSize - memFree {
        return Err(BelowMemUsed(newSize, aligned, memSize, memFree));
      }
      if aligned < highWater {
        return Err(BelowHighWater(newSize, aligned, highWater));
      }
      var oldSize := memSize;
      if aligned == oldSize {
        return Ok(());
      }
      ghost var t, v := Index(), Abs();
      ghost var last := LastSegment(t, v);
      MoveEnd(oldSize, aligned, UsedBytes(live), last);
      memSize := aligned;
      memFree := if aligned > oldSize then memFree + (aligned - oldSize) else memFree - (oldSize - aligned);
      AlignDownIsFloor(newSize, align);
      ghost var t', v' := Index(), Abs();
      assert v' == v.(memSize := aligned);
      assert t' == t.(bySize := bySize, starts := starts, ends := ends, memFree := memFree);
      assert Represents(t, v);
      ResizeRepresents(t, t', v, v', last);
      return Ok(());
    }

    /** The part of alloc after the checks: take `n` bytes off the segment (offset, oldFreeSize). */
    method Carve(handle: nat, n: Word, offset: nat, oldFreeSize: nat) returns (r: Result<Range, Error>)
      requires Valid() && handle !in live
      requires 0 < n <= oldFreeSize && n % align == 0 && n <= memFree && InSize(bySize, oldFreeSize, offset)
      modifies this
      ensures Valid() && r == Ok(Range(offset, n))
      ensures Abs() == old(Abs()).(live := old(live)[handle := Range(offset, n)])
    {
      hide Represents, WellPlaced, Placed, Aligned, Inverse, SizesMatch, EndsMatch, GapTable, IsHighWater, UsedBytes;
      Open(Index(), Abs());
      ghost var t, v := Index(), Abs();
      SegmentInside(t, v, offset, oldFreeSize);
      memFree := memFree - n;
      if highWater < offset + n {
        highWater := offset + n;
      }
      assert offset in starts && n <= starts[offset];
      assert EndsAt(ends, offset + starts[offset], starts[offset]);
      var newFreeSize := starts[offset] - n;
      if 0 < newFreeSize { RestFresh(t, v, offset, oldFreeSize, n); }
      var d := DeleteFreeSegment(offset, starts[offset]);
      assert d.Ok?;
      InsertFreeSegment(offset + n, newFreeSize);
      live := live[handle := Range(offset, n)];
      byOffset := byOffset[offset := handle];
      AllocRepresents(t, Index(), v, Abs(), handle, Range(offset, n), oldFreeSize);
      return Ok(Range(offset, n));
    }

    method Alloc(handle: nat, size: Word) returns (r: Result<Range, Error>)
      requires Valid()
      modifies this
      ensures Valid() && AllocStep(old(Abs()), handle, size, Abs(), r)
    {
      hide Represents, WellPlaced, Placed, Aligned, Inverse, SizesMatch, EndsMatch, GapTable, IsHighWater,
           UsedBytes, Fits, BestFit, AlignUp, IsPowerOfTwo;
      Open(Index(), Abs());
      var n := AlignUp(size, align);
      if memFree < n {
        return Err(InsufficientMemory(handle, size, n, memFree));
      }
      if handle in live {
        return Err(DuplicateHandle(handle));
      }
      FitsBySize(Index(), Abs(), n);
      if !Stocked(bySize, n) {
        return Err(InsufficientContiguousMemory(handle, size, n, memFree));
      }
      var least := FindLowerBound(bySize.Keys, n);
      var offset :| offset in bySize[least];
      if !(n > 0) {
        return Err(AssertionFailed);
      }
      AlignUpIsCeiling(size, align);
      r := Carve(handle, n, offset, least);
      LeastIsBestFit(old(Index()), old(Abs()), n, offset, least);
    }

    /** The table update of free: the returned range and the free segments it touches, on either
        side, become one segment. */
    method Coalesce(offset: nat, size: nat, ghost used: set<nat>, ghost m: nat)
      requires Indexed(bySize, starts, ends) && GapTable(starts, used, m)
      requires 0 < size && offset + size <= m && forall x | offset <= x < offset + size :: x in used
      modifies `bySize, `starts, `ends
      ensures LeftOf(old(ends), offset) <= offset && Indexed(bySize, starts, ends)
      ensures var l, r := LeftOf(old(ends), offset), RightOf(old(starts), offset + size);
              starts == (old(starts) - {offset - l, offset + size})[offset - l := l + size + r]
    {
      hide SizesMatch, EndsMatch, GapTable;
      ghost var l, r, oldStarts := LeftOf(ends, offset), RightOf(starts, offset + size), starts;
      Neighbours(starts, ends, used, m, offset, size);
      if offset in ends && offset + size in starts {
        var sizeL, sizeR := ends[offset], starts[offset + size];
        assert offset >= sizeL;
        var d := DeleteFreeSegment(offset - sizeL, sizeL);
        assert d.Ok?;
        d := DeleteFreeSegment(offset + size, sizeR);
        assert d.Ok?;
        InsertFreeSegment(offset - sizeL, sizeL + size + sizeR);
        assert starts == (oldStarts - {offset - l, offset + size})[offset - l := l + size + r];
      } else if offset in ends {
        var sizeL := ends[offset];
        assert offset >= sizeL;
        var d := DeleteFreeSegment(offset - sizeL, sizeL);
        assert d.Ok?;
        InsertFreeSegment(offset - sizeL, sizeL + size);
        assert starts == (oldStarts - {offset - l, offset + size})[offset - l := l + size + r];
      } else if offset + size in starts {
        var sizeR := starts[offset + size];
        var d := DeleteFreeSegment(offset + size, sizeR);
        assert d.Ok?;
        InsertFreeSegment(offset, size + sizeR);
        assert starts == (oldStarts - {offset - l, offset + size})[offset - l := l + size + r];
      } else {
        InsertFreeSegment(offset, size);
        assert starts == (oldStarts - {offset - l, offset + size})[offset - l := l + size + r];
      }
    }

    method Free(handle: nat) returns (r: Result<(), Error>)
      requires Valid()
      modifies this
      ensures Valid() && FreeStep(old(Abs()), handle, Abs(), r)
    {
      hide Represents, WellPlaced, Placed, Aligned, Inverse, SizesMatch, EndsMatch, GapTable, IsHighWater, UsedBytes;
      if handle !in live {
        return Err(UnknownHandle(handle));
      }
      ghost var t, v := Index(), Abs();
      var offset, size := live[handle].offset, live[handle].size;
      Open(t, v);
      LiveInside(t, v, handle);
      assert size > 0;
      memFree := memFree + size;
      live := live - {handle};
      byOffset := byOffset - {offset};
      var left := if offset in ends then ends[offset] else 0;
      assert left <= offset;
      if offset + size == highWater {
        highWater := offset - left;
      }
      Coalesce(offset, size, UsedBytes(v.live), v.memSize);
      FreeRepresents(t, Index(), v, Abs(), handle, left, RightOf(t.starts, offset + size));
      return Ok(());
    }
  }
}
