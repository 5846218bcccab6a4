/** src/mmgr/dtmmgr.cpp: the allocator with one arena growing up and one growing down. */
module DtmmgrModule {
  import opened Wrappers
  import opened Words
  import opened Layout
  import opened FreeTables
  import opened Arena
  import opened TmmgrModule
  import opened TwoArenas

  lemma HighWaterField(t: Tables, v: View)
    requires Represents(t, v)
    ensures t.highWater == HighWater(v.live)
  {
    HighWaterUnique(v.live, t.highWater, HighWater(v.live));
  }

  /** The cross-resize after an operation that left `v'` in its arena. */
  lemma CrossResizeSucceeds(d: Pair, side: Side, v': View, w': View, r: Result<(), Error>)
    requires Abutting(d) && WellPlaced(v')
    requires v'.align == d.At(side).align && v'.memSize == d.At(side).memSize
    requires 0 <= d.memSize - HighWater(v'.live) < TWO_64
    requires ResizeStep(d.At(side.Other()), d.memSize - HighWater(v'.live), w', r)
    ensures r.Ok?
    ensures 0 <= HighWater(v'.live) <= d.memSize
    ensures d.With(side, v').With(side.Other(), w') == Squeezed(d.With(side, v'), side)
  {
    hide WellPlaced, HighWater, AlignDown, IsPowerOfTwo;
    SqueezeFits(d, side, v');
    var size: Word := d.memSize - HighWater(v'.live);
    HighWaterInside(v');
    SumOfMultiples(d.memSize, HighWater(v'.live), v'.align);
    AlreadyAligned(v', size);
    ResizeSucceedsExactly(d.At(side.Other()), size, w', r);
  }

  lemma AlreadyAligned(v: View, size: Word)
    requires WellPlaced(v) && size % v.align == 0
    ensures AlignDown(size, v.align) == size
  {
    AlignDownIsFloor(size, v.align);
  }

  lemma AllocOutcome(v: View, handle: nat, size: Word, v': View, r: Result<Range, Error>)
    requires WellPlaced(v) && AllocStep(v, handle, size, v', r)
    ensures v'.align == v.align && v'.memSize == v.memSize && WellPlaced(v')
    ensures r.Err? ==> v' == v
    ensures r.Ok? ==> r.value.End() <= v.memSize
  {
    AllocStepPlaced(v, handle, size, v', r);
    if r.Ok? { assert v'.live[handle] == r.value; }
  }

  lemma Recorded(requested: Word, align: Word, history: seq<Event>, d: Pair, e: Event, d': Pair)
    requires Reaches(requested, align, history, d) && Abutting(d) && Step(d, e, d')
    ensures Reaches(requested, align, history + [e], d')
  {
    assert (history + [e])[..|history|] == history;
  }

  lemma ArenaSizes(d: Pair)
    requires Abutting(d)
    ensures WellPlaced(d.up) && WellPlaced(d.down) && d.up.align == d.down.align
    ensures d.up.memSize <= d.memSize && d.down.memSize <= d.memSize
  {}

  /** Where the caller finds the new range: as the lower arena has it, and mirrored for the upper. */
  lemma GrantedAt(d: Pair, side: Side, handle: nat, size: Word, v': View, r0: Result<Range, Error>, d': Pair,
                  r: Result<Range, Error>)
    requires AllocStep(d.At(side), handle, size, v', r0) && PairAllocVia(d, side, v', r0, d', r) && r.Ok?
    ensures handle in d'.At(side).live
    ensures side.Up? ==> r.value == d'.up.live[handle]
    ensures side.Down? ==>
              r.value.size == d'.down.live[handle].size && r.value.End() == d'.memSize - d'.down.live[handle].offset
  {
    hide HighWater, MemFree, Fits, AlignUp, BestFit;
  }

  class Dtmmgr {
    const up: Tmmgr
    const down: Tmmgr
    const memSize: Word
    ghost const requested: Word
    ghost var history: seq<Event>    // the outcome of every call so far

    function At(side: Side): Tmmgr { if side.Up? then up else down }

    ghost function Abs(): Pair reads up, down { Pair(memSize, up.Abs(), down.Abs()) }

    ghost predicate Valid() reads this, up, down {
      && up != down && up.Valid() && down.Valid()
      && Abutting(Abs())
      && IsPowerOfTwo(up.align) && Reaches(requested, up.align, history, Abs())
    }

    constructor (size: Word, align: Word)
      requires IsPowerOfTwo(align)
      ensures Valid() && fresh(up) && fresh(down) && history == []
      ensures requested == size && up.align == align && memSize == AlignDown(size, align)
    {
      hide Represents, Abutting, AlignDown, IsPowerOfTwo;
      var u := new Tmmgr(size, align);
      var d := new Tmmgr(size, align);
      up, down := u, d;
      memSize := u.memSize;
      requested := size;
      history := [];
      InitialAbutting(size, align);
    }

    method Alloc(handle: nat, side: Side, size: Word) returns (r: Result<Range, Error>)
      requires Valid()
      modifies this, up, down
      ensures Valid() && history == old(history) + [Allocated(side, handle, size, r)]
      ensures PairAlloc(old(Abs()), side, handle, size, Abs(), r)
      ensures r.Ok? && side.Up? ==> handle in up.Abs().live && r.value == up.Abs().live[handle]
      ensures r.Ok? && side.Down? ==>
                && handle in down.Abs().live && r.value.size == down.Abs().live[handle].size
                && r.value.End() == memSize - down.Abs().live[handle].offset
    {
      hide Represents, Abutting, WellPlaced, HighWater, AlignDown, AlignUp, IsPowerOfTwo, AllocStep, ResizeStep,
           Reaches;
      ghost var d := Abs();
      ArenaSizes(d);
      var r0 := At(side).Alloc(handle, size);
      ghost var v' := At(side).Abs();
      AllocOutcome(d.At(side), handle, size, v', r0);
      if r0.Err? {
        r := Err(r0.error);
        assert Abs() == d;
      } else {
        HighWaterField(At(side).Index(), v');
        SqueezeFits(d, side, v');
        var c := At(side.Other()).Resize(memSize - At(side).highWater);
        CrossResizeSucceeds(d, side, v', At(side.Other()).Abs(), c);
        assert c.Ok?;
        assert Abs() == Squeezed(d.With(side, v'), side);
        var placed := r0.value;
        if side.Down? {
          assert memSize >= placed.offset + placed.size;
          placed := Range(memSize - (placed.offset + placed.size), placed.size);
        }
        r := Ok(placed);
      }
      assert PairAllocVia(d, side, v', r0, Abs(), r);
      if r.Ok? { GrantedAt(d, side, handle, size, v', r0, Abs(), r); }
      Recorded(requested, up.align, history, d, Allocated(side, handle, size, r), Abs());
      StepKeepsAbutting(d, Allocated(side, handle, size, r), Abs());
      history := history + [Allocated(side, handle, size, r)];
    }

    method Free(handle: nat, side: Side) returns (r: Result<(), Error>)
      requires Valid()
      modifies this, up, down
      ensures Valid() && history == old(history) + [Freed(side, handle, r)]
      ensures PairFree(old(Abs()), side, handle, Abs(), r)
    {
      hide Represents, Abutting, WellPlaced, HighWater, AlignDown, IsPowerOfTwo, ResizeStep, Reaches;
      ghost var d := Abs();
      ArenaSizes(d);
      r := At(side).Free(handle);
      ghost var v' := At(side).Abs();
      if r.Err? {
        assert Abs() == d;
      } else {
        FreePlaced(d.At(side), handle);
        HighWaterField(At(side).Index(), v');
        SqueezeFits(d, side, v');
        var c := At(side.Other()).Resize(memSize - At(side).highWater);
        CrossResizeSucceeds(d, side, v', At(side.Other()).Abs(), c);
        assert c.Ok?;
        assert Abs() == Squeezed(d.With(side, v'), side);
      }
      Recorded(requested, up.align, history, d, Freed(side, handle, r), Abs());
      StepKeepsAbutting(d, Freed(side, handle, r), Abs());
      history := history + [Freed(side, handle, r)];
    }

    /** The larger of the two totals: a request above it fails in either arena. */
    method MemFree() returns (free: Word)
      requires Valid()
      ensures Arena.MemFree(up.Abs()) <= free && Arena.MemFree(down.Abs()) <= free
      ensures forall side: Side, handle, size, v', r ::
                AllocStep(Abs().At(side), handle, size, v', r) && free < AlignUp(size, up.align) ==> r.Err?
      ensures free == Arena.MemFree(up.Abs()) || free == Arena.MemFree(down.Abs())
    {
      free := if up.memFree < down.memFree then down.memFree else up.memFree;
    }
  }
}
