/** What freeing undoes: consequences of the tables being determined by the live ranges. */
module Restoring {
  import opened Wrappers
  import opened Words
  import opened Layout
  import opened FreeTables
  import opened Arena
  import opened TwoArenas

  /** A successful alloc followed by a free of the same handle leaves every table, both totals
      and the memory size as they were. */
  lemma AllocThenFree(t: Tables, v: View, handle: nat, size: Word, v1: View, r: Result<Range, Error>,
                      t2: Tables, v2: View, f: Result<(), Error>)
    requires Represents(t, v) && AllocStep(v, handle, size, v1, r) && r.Ok?
    requires FreeStep(v1, handle, v2, f) && Represents(t2, v2)
    ensures v2 == v && t2 == t
  {
    hide Represents, AlignUp;
    assert v.live[handle := r.value] - {handle} == v.live;
    Canonical(t, t2, v);
  }

  /** The same across both arenas, whichever one served the request: both arenas' tables, totals
      and sizes are as they were. */
  lemma PairAllocThenFree(d: Pair, up: Tables, down: Tables, side: Side, handle: nat, size: Word,
                          d1: Pair, r: Result<Range, Error>,
                          d2: Pair, up2: Tables, down2: Tables, f: Result<(), Error>)
    requires Abutting(d) && Represents(up, d.up) && Represents(down, d.down)
    requires PairAlloc(d, side, handle, size, d1, r) && r.Ok?
    requires Abutting(d1) && PairFree(d1, side, handle, d2, f)
    requires Represents(up2, d2.up) && Represents(down2, d2.down)
    ensures d2 == d && up2 == up && down2 == down
  {
    PairViewsRestored(d, side, handle, size, d1, r, d2, f);
    hide Represents, PairAlloc, PairFree, Abutting;
    Canonical(up, up2, d.up);
    Canonical(down, down2, d.down);
  }

  lemma PairViewsRestored(d: Pair, side: Side, handle: nat, size: Word, d1: Pair, r: Result<Range, Error>,
                          d2: Pair, f: Result<(), Error>)
    requires Abutting(d) && PairAlloc(d, side, handle, size, d1, r) && r.Ok?
    requires Abutting(d1) && PairFree(d1, side, handle, d2, f)
    ensures d2 == d
  {
    hide WellPlaced, HighWater, AlignUp, Fits, BestFit, MemFree;
    var v1, r0 :| AllocStep(d.At(side), handle, size, v1, r0) && PairAllocVia(d, side, v1, r0, d1, r);
    assert d.At(side).live[handle := r0.value] - {handle} == d.At(side).live;
  }

  /** Freeing the handles one after the other, unknown ones included. */
  ghost predicate FreesTo(v: View, handles: seq<nat>, v': View)
    decreases |handles|
  {
    if handles == [] then v' == v
    else exists v1, r :: FreeStep(v, handles[0], v1, r) && FreesTo(v1, handles[1..], v')
  }

  ghost function Handles(handles: seq<nat>): set<nat> {
    set h | h in handles
  }

  lemma {:induction false} FreesRemove(v: View, handles: seq<nat>, v': View)
    requires FreesTo(v, handles, v')
    ensures v' == v.(live := v.live - Handles(handles))
    decreases |handles|
  {
    if handles == [] {
      assert v.live - Handles(handles) == v.live;
    } else {
      var v1, r :| FreeStep(v, handles[0], v1, r) && FreesTo(v1, handles[1..], v');
      FreesRemove(v1, handles[1..], v');
      assert Handles(handles) == {handles[0]} + Handles(handles[1..]);
      assert v1.live - Handles(handles[1..]) == v.live - Handles(handles);
    }
  }

  /** Freeing the same handles in any order, with any repetitions, ends in the same tables. */
  lemma FreeingCommutes(v: View, a: seq<nat>, va: View, ta: Tables, b: seq<nat>, vb: View, tb: Tables)
    requires FreesTo(v, a, va) && Represents(ta, va)
    requires FreesTo(v, b, vb) && Represents(tb, vb)
    requires forall h :: h in a <==> h in b
    ensures va == vb && ta == tb
  {
    hide Represents;
    FreesRemove(v, a, va);
    FreesRemove(v, b, vb);
    assert Handles(a) == Handles(b);
    Canonical(ta, tb, va);
  }

  /** The same for frees in both arenas, in any order. */
  ghost predicate PairFreesTo(d: Pair, keys: seq<Key>, d': Pair)
    requires Abutting(d)
    decreases |keys|
  {
    if keys == [] then d' == d
    else
      exists d1, r ::
        PairFree(d, keys[0].side, keys[0].handle, d1, r) && Abutting(d1) && PairFreesTo(d1, keys[1..], d')
  }

  ghost function HandlesOf(keys: seq<Key>, side: Side): set<nat> {
    set k | k in keys && k.side == side :: k.handle
  }

  lemma HandlesOfMore(keys: seq<Key>, side: Side)
    requires keys != []
    ensures HandlesOf(keys, side) == HandlesOf(keys[1..], side) + if keys[0].side == side then {keys[0].handle} else {}
  {
    assert keys == [keys[0]] + keys[1..];
  }

  lemma PairFreeRemoves(d: Pair, k: Key, d': Pair, r: Result<(), Error>, side: Side)
    requires Abutting(d) && PairFree(d, k.side, k.handle, d', r)
    ensures d'.At(side).live == d.At(side).live - if k.side == side then {k.handle} else {}
    ensures Abutting(d') && d'.memSize == d.memSize && d'.up.align == d.up.align
  {
    hide Abutting, HighWater;
    FreeKeepsAbutting(d, k.side, k.handle, d', r);
    assert d.At(side).live - {} == d.At(side).live;
  }

  lemma {:induction false} PairFreesRemove(d: Pair, keys: seq<Key>, d': Pair, side: Side)
    requires Abutting(d) && PairFreesTo(d, keys, d')
    ensures d'.At(side).live == d.At(side).live - HandlesOf(keys, side)
    ensures Abutting(d') && d'.memSize == d.memSize && d'.up.align == d.up.align
    decreases |keys|
  {
    hide Abutting, PairFree, HandlesOf;
    if keys == [] {
      NoHandles(side);
      assert d.At(side).live - {} == d.At(side).live;
    } else {
      var d1, r :| PairFree(d, keys[0].side, keys[0].handle, d1, r) && Abutting(d1) && PairFreesTo(d1, keys[1..], d');
      PairFreeRemoves(d, keys[0], d1, r, side);
      PairFreesRemove(d1, keys[1..], d', side);
      HandlesOfMore(keys, side);
      RemovedTwice(d.At(side).live, if keys[0].side == side then {keys[0].handle} else {}, HandlesOf(keys[1..], side));
    }
  }

  lemma NoHandles(side: Side)
    ensures HandlesOf([], side) == {}
  {}

  lemma RemovedTwice<V>(m: map<nat, V>, a: set<nat>, b: set<nat>)
    ensures m - a - b == m - (b + a)
  {}

  /** The live ranges of both arenas determine the whole pair. */
  lemma SameLive(d: Pair, d': Pair)
    requires Abutting(d) && Abutting(d') && d.memSize == d'.memSize && d.up.align == d'.up.align
    requires d.At(Up).live == d'.At(Up).live && d.At(Down).live == d'.At(Down).live
    ensures d == d'
  {
    hide WellPlaced, HighWater;
  }

  /** Freeing the same handles of both arenas in any order, with any repetitions, ends in the same
      sizes and tables on both sides. */
  lemma PairFreeingCommutes(d: Pair, a: seq<Key>, da: Pair, upA: Tables, downA: Tables,
                            b: seq<Key>, db: Pair, upB: Tables, downB: Tables)
    requires Abutting(d)
    requires PairFreesTo(d, a, da) && Represents(upA, da.up) && Represents(downA, da.down)
    requires PairFreesTo(d, b, db) && Represents(upB, db.up) && Represents(downB, db.down)
    requires forall k :: k in a <==> k in b
    ensures da == db && upA == upB && downA == downB
  {
    hide Represents, PairFreesTo, Abutting;
    forall side ensures da.At(side).live == db.At(side).live {
      PairFreesRemove(d, a, da, side);
      PairFreesRemove(d, b, db, side);
      assert HandlesOf(a, side) == HandlesOf(b, side);
    }
    PairFreesRemove(d, a, da, Up);
    PairFreesRemove(d, b, db, Up);
    SameLive(da, db);
    Canonical(upA, upB, da.up);
    Canonical(downA, downB, da.down);
  }
}
