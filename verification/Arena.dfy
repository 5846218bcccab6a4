/** The operations of tmmgr on what a caller can see: live ranges, gaps and the memory size. */
module Arena {
  import opened Wrappers
  import opened Words
  import opened Layout

  datatype Error =
    | InsufficientMemory(handle: nat, unaligned: int, aligned: int, memFree: int)
    | DuplicateHandle(handle: nat)
    | InsufficientContiguousMemory(handle: nat, unaligned: int, aligned: int, memFree: int)
    | UnknownHandle(handle: nat)
    | BelowMemUsed(unaligned: int, aligned: int, memSize: int, memFree: int)
    | BelowHighWater(unaligned: int, aligned: int, highWater: int)
    | AssertionFailed    // fhg_assert in its exception mode

  ghost function MemFree(v: View): int { v.memSize - |UsedBytes(v.live)| }

  ghost function HighWater(live: Live): (hw: int)
    ensures IsHighWater(live, hw)
  {
    if live.Keys == {} then 0
    else
      var h :| h in live.Keys;
      var rest := live - {h};
      var below := HighWater(rest);
      assert forall k | k in live :: k == h || (k in rest && rest[k] == live[k]);
      if below <= live[h].End() then live[h].End() else below
  }

  ghost predicate BestFit(v: View, n: nat, o: nat, f: int) {
    && Gap(UsedBytes(v.live), v.memSize, o, f) && n <= f
    && (forall p, g | Gap(UsedBytes(v.live), v.memSize, p, g) && n <= g :: f <= g)
  }

  ghost predicate AllocStep(v: View, handle: nat, size: Word, v': View, r: Result<Range, Error>) {
    var n := AlignUp(size, v.align);
    if MemFree(v) < n then
      v' == v && r == Err(InsufficientMemory(handle, size, n, MemFree(v)))
    else if handle in v.live then
      v' == v && r == Err(DuplicateHandle(handle))
    else if !Fits(v, n) then
      v' == v && r == Err(InsufficientContiguousMemory(handle, size, n, MemFree(v)))
    else if n == 0 then
      v' == v && r == Err(AssertionFailed)
    else
      && r.Ok? && r.value.size == n
      && (exists f :: BestFit(v, n, r.value.offset, f))
      && v' == v.(live := v.live[handle := r.value])
  }

  ghost predicate FreeStep(v: View, handle: nat, v': View, r: Result<(), Error>) {
    if handle !in v.live then
      v' == v && r == Err(UnknownHandle(handle))
    else
      v' == v.(live := v.live - {handle}) && r.Ok?
  }

  ghost predicate ResizeStep(v: View, size: Word, v': View, r: Result<(), Error>) {
    var n := AlignDown(size, v.align);
    if n < |UsedBytes(v.live)| then
      v' == v && r == Err(BelowMemUsed(size, n, v.memSize, MemFree(v)))
    else if n < HighWater(v.live) then
      v' == v && r == Err(BelowHighWater(size, n, HighWater(v.live)))
    else
      v' == v.(memSize := n) && r.Ok?
  }

  // ---- when the operations succeed ----

  lemma FitsEnoughFree(v: View, n: int)
    requires Placed(v) && Fits(v, n)
    ensures n <= MemFree(v)
  {
    var used := UsedBytes(v.live);
    var o, s :| Gap(used, v.memSize, o, s) && n <= s;
    UsedInside(v);
    SpanSize(o, o + s);
    SpanSize(0, v.memSize);
    DisjointSmaller(Span(o, o + s), used, Span(0, v.memSize));
  }

  /** alloc succeeds exactly for a fresh handle and a request that is positive, does not wrap
      when it is rounded up, and fits into some gap. */
  lemma AllocSucceedsExactly(v: View, handle: nat, size: Word, v': View, r: Result<Range, Error>)
    requires WellPlaced(v) && AllocStep(v, handle, size, v', r)
    ensures r.Ok? <==>
            && handle !in v.live
            && 0 < size && size + v.align - 1 < TWO_64
            && Fits(v, AlignUp(size, v.align))
  {
    AlignUpIsCeiling(size, v.align);
    if Fits(v, AlignUp(size, v.align)) { FitsEnoughFree(v, AlignUp(size, v.align)); }
  }

  /** A request for which some gap is just right takes such a gap whole. */
  lemma ExactFitFills(v: View, handle: nat, size: Word, v': View, r: Result<Range, Error>)
    requires AllocStep(v, handle, size, v', r) && r.Ok?
    requires exists o :: Gap(UsedBytes(v.live), v.memSize, o, AlignUp(size, v.align))
    ensures Gap(UsedBytes(v.live), v.memSize, r.value.offset, r.value.size)
  {
    hide AlignUp, Gap, MemFree, Fits;
    var f :| BestFit(v, r.value.size, r.value.offset, f);
    var o :| Gap(UsedBytes(v.live), v.memSize, o, r.value.size);
    assert f <= r.value.size;
  }

  /** resize succeeds exactly down to the high water mark; the check against the memory in
      use never rejects anything else, it only names the error. */
  lemma ResizeSucceedsExactly(v: View, size: Word, v': View, r: Result<(), Error>)
    requires WellPlaced(v) && ResizeStep(v, size, v', r)
    ensures r.Ok? <==> HighWater(v.live) <= AlignDown(size, v.align)
  {
    HighWaterInside(v);
    UsedCount(v.live, HighWater(v.live));
  }

  lemma HighWaterInside(v: View)
    requires WellPlaced(v)
    ensures 0 < v.align && 0 <= HighWater(v.live) <= v.memSize && HighWater(v.live) % v.align == 0
  {
    var hw := HighWater(v.live);
    if hw == 0 {
      DivModUnique(0, v.align, 0, 0);
    } else {
      var h :| h in v.live && v.live[h].End() == hw;
      EndAligned(v.live[h], v.align);
    }
  }

  lemma SumOfMultiples(a: int, b: int, d: int)
    requires d > 0 && a % d == 0 && b % d == 0
    ensures (a + b) % d == 0 && (a - b) % d == 0
  {
    var p, q := a / d, b / d;
    assert a + b == (p + q) * d + 0 && a - b == (p - q) * d + 0;
    DivModUnique(a + b, d, p + q, 0);
    DivModUnique(a - b, d, p - q, 0);
  }

  // ---- the operations keep live ranges well placed ----

  lemma EndAligned(r: Range, align: Word)
    requires AlignedTo(r, align)
    ensures r.End() % align == 0
  {
    SumOfMultiples(r.offset, r.size, align);
  }

  /** A gap starts where the arena or a live range does, so its ends are aligned. */
  lemma GapEnds(v: View, o: int, s: int)
    requires Placed(v) && Gap(UsedBytes(v.live), v.memSize, o, s)
    ensures o == 0 || exists h :: h in v.live && v.live[h].End() == o
    ensures o + s == v.memSize || exists h :: h in v.live && v.live[h].offset == o + s
  {
    var used := UsedBytes(v.live);
    if o != 0 {
      var h :| h in v.live && o - 1 in v.live[h].Bytes();
      assert v.live[h].End() == o by {
        assert o in v.live[h].Bytes() ==> o in used;
      }
    }
    if o + s != v.memSize {
      var h :| h in v.live && o + s in v.live[h].Bytes();
      assert v.live[h].offset == o + s by {
        assert o + s - 1 in v.live[h].Bytes() ==> o + s - 1 in used;
      }
    }
  }

  lemma GapAligned(v: View, o: int, s: int)
    requires WellPlaced(v) && Gap(UsedBytes(v.live), v.memSize, o, s)
    ensures o % v.align == 0 && s % v.align == 0
  {
    assert o % v.align == 0 && (o + s) % v.align == 0 by {
      GapEnds(v, o, s);
      if o == 0 {
        DivModUnique(0, v.align, 0, 0);
      } else {
        var h :| h in v.live && v.live[h].End() == o;
        EndAligned(v.live[h], v.align);
      }
      if o + s != v.memSize {
        var h :| h in v.live && v.live[h].offset == o + s;
        assert AlignedTo(v.live[h], v.align);
      }
    }
    SumOfMultiples(o + s, o, v.align);
  }

  lemma AllocPlaced(v: View, handle: nat, n: nat, o: nat, f: int)
    requires WellPlaced(v) && handle !in v.live
    requires Gap(UsedBytes(v.live), v.memSize, o, f) && 0 < n <= f && n % v.align == 0
    ensures WellPlaced(v.(live := v.live[handle := Range(o, n)]))
  {
    GapAligned(v, o, f);
    var live' := v.live[handle := Range(o, n)];
    forall h, k ensures Separate(live', h, k) {
      assert Separate(v.live, h, k);
      if h in v.live && k == handle { GapSeparate(v, h, o, f); }
      if k in v.live && h == handle { GapSeparate(v, k, o, f); }
    }
  }

  lemma GapSeparate(v: View, h: nat, o: nat, f: nat)
    requires Placed(v) && h in v.live && Gap(UsedBytes(v.live), v.memSize, o, f)
    ensures v.live[h].Disjoint(Range(o, f))
  {
    var r := v.live[h];
    var x := if r.offset < o then o else r.offset;
    assert x < r.End() ==> x in r.Bytes() && x in UsedBytes(v.live);
  }

  lemma AllocStepPlaced(v: View, handle: nat, size: Word, v': View, r: Result<Range, Error>)
    requires WellPlaced(v) && AllocStep(v, handle, size, v', r)
    ensures WellPlaced(v')
  {
    if r.Ok? {
      var n := AlignUp(size, v.align);
      var f :| BestFit(v, n, r.value.offset, f);
      AlignUpIsCeiling(size, v.align);
      AllocPlaced(v, handle, n, r.value.offset, f);
      assert r.value == Range(r.value.offset, n);
    }
  }

  lemma FreePlaced(v: View, h: nat)
    requires WellPlaced(v)
    ensures WellPlaced(v.(live := v.live - {h}))
  {
    var live' := v.live - {h};
    forall k, j ensures Separate(live', k, j) { assert Separate(v.live, k, j); }
  }
}
