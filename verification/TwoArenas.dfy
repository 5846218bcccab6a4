/** src/mmgr/dtmmgr.cpp on values: two arenas over one memory, one growing up from 0 and one
    growing down from the end, and the runs of such a pair. */
module TwoArenas {
  import opened Wrappers
  import opened Words
  import opened Layout
  import opened Arena

  datatype Side = Up | Down {
    function Other(): Side { if Up? then Down else Up }
  }

  datatype Pair = Pair(memSize: Word, up: View, down: View) {
    function At(side: Side): View { if side.Up? then up else down }

    function With(side: Side, v: View): Pair { if side.Up? then this.(up := v) else this.(down := v) }
  }

  /** Each arena ends where the other one's live ranges begin. */
  ghost predicate Abutting(d: Pair) {
    && WellPlaced(d.up) && WellPlaced(d.down)
    && d.up.align == d.down.align && d.memSize % d.up.align == 0
    && d.up.memSize == d.memSize - HighWater(d.down.live)
    && d.down.memSize == d.memSize - HighWater(d.up.live)
  }

  /** Where the caller finds a range of the given arena. */
  function Place(memSize: int, side: Side, r: Range): Range
    requires r.End() <= memSize
  {
    if side.Up? then r else Range(memSize - r.End(), r.size)
  }

  ghost predicate PairAlloc(d: Pair, side: Side, handle: nat, size: Word, d': Pair, r: Result<Range, Error>)
    requires Abutting(d)
  {
    exists v', r0 :: AllocStep(d.At(side), handle, size, v', r0) && PairAllocVia(d, side, v', r0, d', r)
  }

  ghost predicate PairAllocVia(d: Pair, side: Side, v': View, r0: Result<Range, Error>,
                               d': Pair, r: Result<Range, Error>)
  {
    match r0
    case Err(e) => d' == d && r == Err(e)
    case Ok(range) =>
      && range.End() <= d.memSize && r == Ok(Place(d.memSize, side, range))
      && HighWater(v'.live) <= d.memSize
      && d' == Squeezed(d.With(side, v'), side)
  }

  /** The other arena resized to what the high water mark of this one leaves. */
  ghost function Squeezed(d: Pair, side: Side): Pair
    requires 0 <= HighWater(d.At(side).live) <= d.memSize
  {
    d.With(side.Other(), d.At(side.Other()).(memSize := d.memSize - HighWater(d.At(side).live)))
  }

  ghost predicate PairFree(d: Pair, side: Side, handle: nat, d': Pair, r: Result<(), Error>)
    requires Abutting(d)
  {
    if handle !in d.At(side).live then
      d' == d && r == Err(UnknownHandle(handle))
    else
      var v' := d.At(side).(live := d.At(side).live - {handle});
      && r.Ok? && HighWater(v'.live) <= d.memSize
      && d' == Squeezed(d.With(side, v'), side)
  }

  // ---- one step ----

  /** Whatever happens inside one arena, the space left for the other never cuts into its live
      ranges: the resize after it cannot fail. */
  lemma SqueezeFits(d: Pair, side: Side, v': View)
    requires Abutting(d) && WellPlaced(v')
    requires v'.align == d.At(side).align && v'.memSize == d.At(side).memSize
    ensures 0 <= HighWater(v'.live) <= d.memSize
    ensures HighWater(d.At(side.Other()).live) <= d.memSize - HighWater(v'.live)
    ensures Abutting(Squeezed(d.With(side, v'), side))
  {
    hide WellPlaced, HighWater;
    HighWaterInside(v');
    HighWaterInside(d.At(side.Other()));
    var other := d.At(side.Other());
    var size := d.memSize - HighWater(v'.live);
    SumOfMultiples(d.memSize, HighWater(v'.live), v'.align);
    ResizedWellPlaced(other, size);
    if side.Up? {
      AbuttingOf(d.memSize, v', other.(memSize := size));
      assert Squeezed(d.With(side, v'), side) == Pair(d.memSize, v', other.(memSize := size));
    } else {
      AbuttingOf(d.memSize, other.(memSize := size), v');
      assert Squeezed(d.With(side, v'), side) == Pair(d.memSize, other.(memSize := size), v');
    }
  }

  lemma AbuttingOf(memSize: Word, up: View, down: View)
    requires WellPlaced(up) && WellPlaced(down) && up.align == down.align && memSize % up.align == 0
    requires up.memSize == memSize - HighWater(down.live) && down.memSize == memSize - HighWater(up.live)
    ensures Abutting(Pair(memSize, up, down))
  {
    hide WellPlaced, HighWater;
  }

  lemma ResizedWellPlaced(v: View, size: Word)
    requires WellPlaced(v) && HighWater(v.live) <= size && size % v.align == 0
    ensures WellPlaced(v.(memSize := size))
  {}

  lemma AllocKeepsAbutting(d: Pair, side: Side, handle: nat, size: Word, d': Pair, r: Result<Range, Error>)
    requires Abutting(d) && PairAlloc(d, side, handle, size, d', r)
    ensures Abutting(d') && d'.memSize == d.memSize && d'.up.align == d.up.align
  {
    var v', r0 :| AllocStep(d.At(side), handle, size, v', r0) && PairAllocVia(d, side, v', r0, d', r);
    if r0.Ok? {
      AllocStepPlaced(d.At(side), handle, size, v', r0);
      SqueezeFits(d, side, v');
    }
  }

  lemma FreeKeepsAbutting(d: Pair, side: Side, handle: nat, d': Pair, r: Result<(), Error>)
    requires Abutting(d) && PairFree(d, side, handle, d', r)
    ensures Abutting(d') && d'.memSize == d.memSize && d'.up.align == d.up.align
  {
    if r.Ok? {
      FreePlaced(d.At(side), handle);
      SqueezeFits(d, side, d.At(side).(live := d.At(side).live - {handle}));
    }
  }

  // ---- what a caller holds ----

  datatype Key = Key(side: Side, handle: nat)

  /** Ranges as the caller sees them, by arena and handle. */
  type Grants = map<Key, Range>

  ghost predicate Safe(g: Grants, memSize: int, align: int) {
    && (forall k | k in g :: 0 < g[k].size && g[k].End() <= memSize)
    && (forall k | k in g :: 0 < align && g[k].offset % align == 0 && g[k].size % align == 0)
    && (forall k, l | k in g && l in g && k != l :: g[k].Disjoint(g[l]))
  }

  /** `g` holds exactly the live ranges of both arenas, mirrored for the one growing down. */
  ghost predicate Holds(d: Pair, g: Grants) {
    && (forall k | k in g :: HoldsKey(d, g, k))
    && (forall side: Side, h | h in d.At(side).live :: Key(side, h) in g)
  }

  ghost predicate HoldsKey(d: Pair, g: Grants, k: Key)
    requires k in g
  {
    && k.handle in d.At(k.side).live
    && d.At(k.side).live[k.handle].End() <= d.memSize
    && g[k] == Place(d.memSize, k.side, d.At(k.side).live[k.handle])
  }

  lemma GrantedSafe(d: Pair, g: Grants)
    requires Abutting(d) && Holds(d, g)
    ensures Safe(g, d.memSize, d.up.align)
  {
    forall k | k in g
      ensures 0 < g[k].size && g[k].End() <= d.memSize
      ensures 0 < d.up.align && g[k].offset % d.up.align == 0 && g[k].size % d.up.align == 0
    {
      assert HoldsKey(d, g, k);
      LiveAligned(d, k.side, k.handle);
    }
    forall k, l | k in g && l in g && k != l ensures g[k].Disjoint(g[l]) {
      assert HoldsKey(d, g, k) && HoldsKey(d, g, l);
      LiveDisjoint(d, k, l);
    }
  }

  lemma LiveAligned(d: Pair, side: Side, h: nat)
    requires Abutting(d) && h in d.At(side).live && d.At(side).live[h].End() <= d.memSize
    ensures 0 < d.At(side).live[h].size
    ensures AlignedTo(Place(d.memSize, side, d.At(side).live[h]), d.up.align)
  {
    var r := d.At(side).live[h];
    EndAligned(r, d.up.align);
    SumOfMultiples(d.memSize, r.End(), d.up.align);
  }

  /** Within one arena by placement; across arenas because both keep to their side of the
      other's high water mark. */
  lemma LiveDisjoint(d: Pair, k: Key, l: Key)
    requires Abutting(d) && k != l
    requires k.handle in d.At(k.side).live && d.At(k.side).live[k.handle].End() <= d.memSize
    requires l.handle in d.At(l.side).live && d.At(l.side).live[l.handle].End() <= d.memSize
    ensures Place(d.memSize, k.side, d.At(k.side).live[k.handle])
            .Disjoint(Place(d.memSize, l.side, d.At(l.side).live[l.handle]))
  {
    if k.side == l.side {
      assert Separate(d.At(k.side).live, k.handle, l.handle);
    } else {
      var up, down := if k.side.Up? then k.handle else l.handle, if k.side.Up? then l.handle else k.handle;
      assert d.up.live[up].End() <= d.up.memSize == d.memSize - HighWater(d.down.live);
      assert d.down.live[down].End() <= HighWater(d.down.live);
    }
  }

  // ---- whole runs ----

  datatype Event =
    | Allocated(side: Side, handle: nat, size: Word, granted: Result<Range, Error>)
    | Freed(side: Side, handle: nat, freed: Result<(), Error>)

  ghost predicate Step(d: Pair, e: Event, d': Pair)
    requires Abutting(d)
  {
    match e
    case Allocated(side, handle, size, r) => PairAlloc(d, side, handle, size, d', r)
    case Freed(side, handle, r) => PairFree(d, side, handle, d', r)
  }

  function Initial(memSize: Word, align: Word): Pair {
    var v := View(align, AlignDown(memSize, align), map[]);
    Pair(v.memSize, v, v)
  }

  /** Some sequence of calls with these outcomes leads from a fresh pair of arenas to `d`. */
  ghost predicate Reaches(memSize: Word, align: Word, events: seq<Event>, d: Pair) {
    if events == [] then d == Initial(memSize, align)
    else
      var n := |events| - 1;
      exists p :: Reaches(memSize, align, events[..n], p) && Abutting(p) && Step(p, events[n], d)
  }

  /** The book a caller keeps from the outcomes alone. */
  function Book(events: seq<Event>): Grants {
    if events == [] then map[]
    else
      var book, e := Book(events[..|events| - 1]), events[|events| - 1];
      match e
      case Allocated(side, handle, _, r) => if r.Ok? then book[Key(side, handle) := r.value] else book
      case Freed(side, handle, r) => if r.Ok? then book - {Key(side, handle)} else book
  }

  lemma InitialAbutting(memSize: Word, align: Word)
    requires IsPowerOfTwo(align)
    ensures Abutting(Initial(memSize, align))
  {
    AlignDownIsFloor(memSize, align);
    assert HighWater(map[]) == 0;
  }

  lemma StepKeepsAbutting(d: Pair, e: Event, d': Pair)
    requires Abutting(d) && Step(d, e, d')
    ensures Abutting(d') && d'.memSize == d.memSize && d'.up.align == d.up.align
  {
    match e
    case Allocated(side, handle, size, r) => AllocKeepsAbutting(d, side, handle, size, d', r);
    case Freed(side, handle, r) => FreeKeepsAbutting(d, side, handle, d', r);
  }

  lemma HoldsWith(d: Pair, d': Pair, g: Grants, side: Side, handle: nat, r: Range)
    requires Holds(d, g) && d'.memSize == d.memSize && r.End() <= d.memSize
    requires d'.At(side).live == d.At(side).live[handle := r]
    requires d'.At(side.Other()).live == d.At(side.Other()).live
    ensures Holds(d', g[Key(side, handle) := Place(d.memSize, side, r)])
  {
    var k0 := Key(side, handle);
    var g' := g[k0 := Place(d.memSize, side, r)];
    forall k | k in g' ensures HoldsKey(d', g', k) {
      if k != k0 {
        assert HoldsKey(d, g, k);
        assert k.side == side || k.side == side.Other();
      }
    }
    forall s: Side, h | h in d'.At(s).live ensures Key(s, h) in g' {
      assert s == side || s == side.Other();
    }
  }

  lemma HoldsWithout(d: Pair, d': Pair, g: Grants, side: Side, handle: nat)
    requires Holds(d, g) && d'.memSize == d.memSize
    requires d'.At(side).live == d.At(side).live - {handle}
    requires d'.At(side.Other()).live == d.At(side.Other()).live
    ensures Holds(d', g - {Key(side, handle)})
  {
    var k0 := Key(side, handle);
    var g' := g - {k0};
    forall k | k in g' ensures HoldsKey(d', g', k) {
      assert HoldsKey(d, g, k);
      assert k.side == side || k.side == side.Other();
    }
    forall s: Side, h | h in d'.At(s).live ensures Key(s, h) in g' {
      assert s == side || s == side.Other();
    }
  }

  lemma AllocUpdatesBook(d: Pair, side: Side, handle: nat, size: Word, d': Pair, r: Result<Range, Error>, g: Grants)
    requires Abutting(d) && PairAlloc(d, side, handle, size, d', r) && Holds(d, g)
    ensures Holds(d', if r.Ok? then g[Key(side, handle) := r.value] else g)
  {
    hide Abutting, Holds, Fits, BestFit, HighWater, AlignUp, MemFree;
    var v', r0 :| AllocStep(d.At(side), handle, size, v', r0) && PairAllocVia(d, side, v', r0, d', r);
    if r0.Ok? {
      assert d'.At(side).live == d.At(side).live[handle := r0.value];
      HoldsWith(d, d', g, side, handle, r0.value);
    }
  }

  lemma FreeUpdatesBook(d: Pair, side: Side, handle: nat, d': Pair, r: Result<(), Error>, g: Grants)
    requires Abutting(d) && PairFree(d, side, handle, d', r) && Holds(d, g)
    ensures Holds(d', if r.Ok? then g - {Key(side, handle)} else g)
  {
    hide Abutting, Holds, HighWater;
    if r.Ok? {
      HoldsWithout(d, d', g, side, handle);
    }
  }

  lemma {:induction false} BookIsHeld(memSize: Word, align: Word, events: seq<Event>, d: Pair)
    requires IsPowerOfTwo(align) && Reaches(memSize, align, events, d)
    ensures Abutting(d) && d.memSize == AlignDown(memSize, align) && d.up.align == align
    ensures Holds(d, Book(events))
  {
    hide Abutting, Holds, PairAlloc, PairFree;
    InitialAbutting(memSize, align);
    if events == [] {
      NothingHeld(memSize, align);
    } else {
      var n := |events| - 1;
      var p :| Reaches(memSize, align, events[..n], p) && Abutting(p) && Step(p, events[n], d);
      BookIsHeld(memSize, align, events[..n], p);
      StepKeepsAbutting(p, events[n], d);
      match events[n]
      case Allocated(side, handle, size, r) => AllocUpdatesBook(p, side, handle, size, d, r, Book(events[..n]));
      case Freed(side, handle, r) => FreeUpdatesBook(p, side, handle, d, r, Book(events[..n]));
    }
  }

  lemma NothingHeld(memSize: Word, align: Word)
    ensures Holds(Initial(memSize, align), map[])
  {}

  /** Over every run: the ranges granted and not yet freed are pairwise disjoint, aligned and
      inside the memory, judged from the outcomes the caller saw. */
  lemma EveryRunIsSafe(memSize: Word, align: Word, events: seq<Event>, d: Pair)
    requires IsPowerOfTwo(align) && Reaches(memSize, align, events, d)
    ensures Safe(Book(events), AlignDown(memSize, align), align)
  {
    BookIsHeld(memSize, align, events, d);
    GrantedSafe(d, Book(events));
  }

  // ---- which side is which ----

  /** The largest end of the ranges granted from below, 0 if there is none. */
  ghost predicate IsTop(g: Grants, top: int) {
    && 0 <= top && (forall k | k in g && k.side.Up? :: g[k].End() <= top)
    && (top == 0 || exists k :: k in g && k.side.Up? && g[k].End() == top)
  }

  /** The smallest offset of the ranges granted from above, the end of the memory if there is none. */
  ghost predicate IsBottom(g: Grants, memSize: int, bottom: int) {
    && bottom <= memSize && (forall k | k in g && k.side.Down? :: bottom <= g[k].offset)
    && (bottom == memSize || exists k :: k in g && k.side.Down? && g[k].offset == bottom)
  }

  lemma TopIsHighWater(d: Pair, g: Grants)
    requires Abutting(d) && Holds(d, g)
    ensures IsTop(g, HighWater(d.up.live))
  {
    var hw := HighWater(d.up.live);
    forall k | k in g && k.side.Up? ensures g[k].End() <= hw { assert HoldsKey(d, g, k); }
    if hw != 0 {
      var h :| h in d.up.live && d.up.live[h].End() == hw;
      assert h in d.At(Up).live;
      assert HoldsKey(d, g, Key(Up, h));
    }
  }

  lemma BottomIsHighWater(d: Pair, g: Grants)
    requires Abutting(d) && Holds(d, g)
    ensures IsBottom(g, d.memSize, d.memSize - HighWater(d.down.live))
  {
    var hw := HighWater(d.down.live);
    forall k | k in g && k.side.Down? ensures d.memSize - hw <= g[k].offset { assert HoldsKey(d, g, k); }
    if hw != 0 {
      var h :| h in d.down.live && d.down.live[h].End() == hw;
      assert h in d.At(Down).live;
      assert HoldsKey(d, g, Key(Down, h));
    }
  }

  lemma Meeting(d: Pair, g: Grants, top: int, bottom: int)
    requires IsTop(g, top) && IsBottom(g, d.memSize, bottom) && top <= bottom
    ensures forall k, l | k in g && l in g && k.side.Up? && l.side.Down? :: g[k].End() <= g[l].offset
  {
    forall k, l | k in g && l in g && k.side.Up? && l.side.Down? ensures g[k].End() <= g[l].offset {
      assert g[k].End() <= top <= bottom <= g[l].offset;
    }
  }

  lemma MarksMeet(d: Pair)
    requires Abutting(d)
    ensures HighWater(d.up.live) <= d.memSize - HighWater(d.down.live)
  {
    hide WellPlaced, HighWater;
    HighWaterInside(d.up);
  }

  /** Over every run the arena growing up lies below the one growing down, judged from the outcomes
      the caller saw: the high water marks are the largest end of what was granted from below and,
      counted from the end of the memory, the smallest offset of what was granted from above. */
  lemma ArenasMeet(memSize: Word, align: Word, events: seq<Event>, d: Pair)
    requires IsPowerOfTwo(align) && Reaches(memSize, align, events, d)
    ensures var g, m, top, bottom := Book(events), AlignDown(memSize, align), HighWater(d.up.live),
                                     AlignDown(memSize, align) - HighWater(d.down.live);
            && (forall k, l | k in g && l in g && k.side.Up? && l.side.Down? :: g[k].End() <= g[l].offset)
            && IsTop(g, top) && IsBottom(g, m, bottom) && top <= bottom
  {
    hide Reaches, Book, Holds, Abutting, AlignDown, HighWater, IsTop, IsBottom, IsPowerOfTwo;
    BookIsHeld(memSize, align, events, d);
    var g := Book(events);
    TopIsHighWater(d, g);
    BottomIsHighWater(d, g);
    MarksMeet(d);
    Meeting(d, g, HighWater(d.up.live), d.memSize - HighWater(d.down.live));
  }

  lemma NothingOn(d: Pair, g: Grants, side: Side)
    requires Holds(d, g) && forall k | k in g :: k.side != side
    ensures d.At(side).live == map[]
  {
    assert forall h | h in d.At(side).live :: Key(side, h) in g && Key(side, h).side == side;
  }

  /** The first request of an arena is served at its own end of the memory. */
  lemma FirstGrant(memSize: Word, align: Word, events: seq<Event>, d: Pair,
                   side: Side, handle: nat, size: Word, d': Pair, r: Result<Range, Error>)
    requires IsPowerOfTwo(align) && Reaches(memSize, align, events, d) && Abutting(d)
    requires forall k | k in Book(events) :: k.side != side
    requires PairAlloc(d, side, handle, size, d', r) && r.Ok?
    ensures r.value.size == AlignUp(size, align)
    ensures r.value.offset == match side case Up => 0 case Down => AlignDown(memSize, align) - AlignUp(size, align)
  {
    hide Reaches, AlignDown, AlignUp, HighWater, WellPlaced, MemFree, Fits;
    BookIsHeld(memSize, align, events, d);
    var v', r0 :| AllocStep(d.At(side), handle, size, v', r0) && PairAllocVia(d, side, v', r0, d', r);
    NothingOn(d, Book(events), side);
    var f :| BestFit(d.At(side), AlignUp(size, d.up.align), r0.value.offset, f);
    assert UsedBytes(d.At(side).live) == {};
  }
}
