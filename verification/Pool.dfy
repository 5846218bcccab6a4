/** external/rapidxml/rapidxml.hpp: the memory pool that holds nodes, attributes and strings. */
module Pool {
  import opened Words

  /** A piece of raw memory: the static one, or one from the heap with a header in front. */
  datatype Block = Block(begin: nat, end: nat)

  /** What an allocation returned: `size` bytes from `start`, in the block of that number. */
  datatype Cell = Cell(start: nat, size: nat, block: nat)

  ghost predicate Apart(a: Block, b: Block) { a.end <= b.begin || b.end <= a.begin }

  ghost predicate CellsApart(c: Cell, d: Cell) { c.start + c.size <= d.start || d.start + d.size <= c.start }

  lemma {:induction false} MaskAtMost(m: nat, s: nat, w: nat)
    ensures BitAnd(m, s, w) <= m
  {
    if w > 0 { MaskAtMost(m / 2, s / 2, w - 1); }
  }

  /** memory_pool::align, with its masks */
  function Align(p: nat, a: Word): nat
    requires a > 0
  {
    MaskAtMost(a - 1, p, 64);
    p + BitAnd(a - 1, a - BitAnd(a - 1, p, 64), 64)
  }

  lemma AlignMasks(p: nat, a: Word, k: nat)
    requires k < 64 && a == Pow2(k)
    ensures Align(p, a) == p + (a - p % a) % a
  {
    hide BitAnd, Pow2;
    LowMask(p, k, 64);
    LowMask(a - p % a, k, 64);
  }

  lemma NextMultiple(p: nat, a: nat)
    requires a > 0
    ensures (p + (a - p % a) % a) % a == 0 && 0 <= (a - p % a) % a < a
  {
    var q, r := p / a, p % a;
    if r == 0 {
      DivModUnique(a, a, 1, 0);
    } else {
      DivModUnique(a - r, a, 0, a - r);
      assert (q + 1) * a == q * a + a;
      DivModUnique(p + (a - r), a, q + 1, 0);
    }
  }

  /** For a power of two, the least multiple not below the address. */
  lemma AlignIsCeiling(p: nat, a: Word)
    requires IsPowerOfTwo(a)
    ensures a > 0 && Align(p, a) % a == 0 && p <= Align(p, a) < p + a
  {
    hide Align, Pow2;
    var k: nat :| k < 64 && a == Pow2(k);
    AlignMasks(p, a, k);
    NextMultiple(p, a);
  }

  // ---- what every allocation keeps ----

  /** The sizes fixed when the header file is compiled, and where the static memory lies. */
  datatype Config = Config(alignment: Word, headerSize: nat, staticSize: nat, dynamicSize: nat, staticMemory: nat)

  ghost predicate Configured(c: Config) {
    IsPowerOfTwo(c.alignment) && 0 < c.alignment <= c.staticSize && 0 < c.headerSize
  }

  function AllocSize(c: Config, size: nat): nat
    requires c.alignment > 0
  {
    c.headerSize + (2 * c.alignment - 2) + if c.dynamicSize < size then size else c.dynamicSize
  }

  datatype State = State(
    ptr: nat,
    headers: map<nat, nat>,      // previous_begin of the header at an address
    blocks: seq<Block>,          // from the static block to the current one
    cells: seq<Cell>)            // everything handed out since the last clear

  /** The header of a dynamic block, and the first byte of a block that can be handed out. */
  function Header(c: Config, b: Block): nat
    requires c.alignment > 0
  {
    Align(b.begin, c.alignment)
  }

  function Floor(c: Config, s: State, i: nat): nat
    requires c.alignment > 0 && i < |s.blocks|
  {
    if i == 0 then s.blocks[i].begin else Header(c, s.blocks[i]) + c.headerSize
  }

  /** A dynamic block has room for its header, which leads to the block before it. */
  ghost predicate Linked(c: Config, s: State, i: nat)
    requires c.alignment > 0 && i < |s.blocks|
  {
    0 < i ==>
      && Header(c, s.blocks[i]) + c.headerSize <= s.blocks[i].end
      && Header(c, s.blocks[i]) in s.headers && s.headers[Header(c, s.blocks[i])] == s.blocks[i - 1].begin
  }

  /** Handed out memory is aligned, inside its block and behind the block's header. */
  ghost predicate Placed(c: Config, s: State, d: Cell)
    requires c.alignment > 0
  {
    && d.block < |s.blocks| && d.start % c.alignment == 0
    && Floor(c, s, d.block) <= d.start && d.start + d.size <= s.blocks[d.block].end
    && (d.block == |s.blocks| - 1 ==> d.start + d.size <= s.ptr)
  }

  ghost predicate BlocksApart(s: State, i: nat, j: nat) {
    i < j < |s.blocks| ==> Apart(s.blocks[i], s.blocks[j])
  }

  ghost predicate Disjoint(s: State, i: nat, j: nat) {
    i < j < |s.cells| ==> CellsApart(s.cells[i], s.cells[j])
  }

  ghost predicate Inv(c: Config, s: State) {
    && Configured(c)
    && s.blocks != [] && s.blocks[0] == Block(c.staticMemory, c.staticMemory + c.staticSize)
    && Floor(c, s, |s.blocks| - 1) <= s.ptr <= s.blocks[|s.blocks| - 1].end
    && (forall i, j :: BlocksApart(s, i, j))
    && (forall i: nat | i < |s.blocks| :: Linked(c, s, i))
    && (forall i: nat | i < |s.cells| :: Placed(c, s, s.cells[i]))
    && (forall i, j :: Disjoint(s, i, j))
  }

  lemma FloorInside(c: Config, s: State, i: nat)
    requires Configured(c) && i < |s.blocks|
    ensures s.blocks[i].begin <= Header(c, s.blocks[i]) < s.blocks[i].begin + c.alignment
            && s.blocks[i].begin <= Floor(c, s, i)
  {
    hide Align;
    AlignIsCeiling(s.blocks[i].begin, c.alignment);
  }

  /** A new block, its header written. */
  function Grown(c: Config, s: State, raw: nat, size: nat): State
    requires c.alignment > 0 && s.blocks != []
  {
    var b := Block(raw, raw + AllocSize(c, size));
    State(Header(c, b) + c.headerSize, s.headers[Header(c, b) := s.blocks[|s.blocks| - 1].begin],
          s.blocks + [b], s.cells)
  }

  lemma GrownKeeps(c: Config, s: State, raw: nat, size: nat)
    requires Inv(c, s) && forall i: nat | i < |s.blocks| :: Apart(s.blocks[i], Block(raw, raw + AllocSize(c, size)))
    ensures Inv(c, Grown(c, s, raw, size))
    ensures Align(Grown(c, s, raw, size).ptr, c.alignment) + size <= raw + AllocSize(c, size)
  {
    hide Align, IsPowerOfTwo;
    var s', b, n := Grown(c, s, raw, size), Block(raw, raw + AllocSize(c, size)), |s.blocks|;
    AlignIsCeiling(raw, c.alignment);
    AlignIsCeiling(s'.ptr, c.alignment);
    forall i, j ensures BlocksApart(s', i, j) { assert BlocksApart(s, i, j); }
    forall i: nat | i < |s'.blocks| ensures Linked(c, s', i) {
      if i < n {
        assert Linked(c, s, i);
        FloorInside(c, s, i);
      }
    }
    forall i: nat | i < |s'.cells| ensures Placed(c, s', s'.cells[i]) { assert Placed(c, s, s.cells[i]); }
    forall i, j ensures Disjoint(s', i, j) { assert Disjoint(s, i, j); }
  }

  /** The slack of a new block is the least that always suffices: where block and header are both
      misplaced by one byte, the request ends with the block. */
  lemma SlackIsLeast(c: Config, raw: nat, size: nat)
    requires Configured(c) && 1 < c.alignment && c.dynamicSize <= size
    requires raw % c.alignment == 1 && c.headerSize % c.alignment == 1
    ensures Align(Align(raw, c.alignment) + c.headerSize, c.alignment) + size == raw + AllocSize(c, size)
  {
    hide Align, IsPowerOfTwo;
    var a, k, h := c.alignment, raw / c.alignment, c.headerSize / c.alignment;
    AlignIsCeiling(raw, a);
    OnlyMultiple(Align(raw, a), a, raw + a - 1, k + 1);
    AlignIsCeiling(raw + a - 1 + c.headerSize, a);
    Regrouped(k, h, a);
    OnlyMultiple(Align(raw + a - 1 + c.headerSize, a), a, raw + a - 1 + c.headerSize + a - 1, k + 1 + h + 1);
  }

  lemma Regrouped(k: nat, h: nat, a: nat)
    ensures (k + 1) * a == k * a + a && (k + 1 + h + 1) * a == k * a + a + h * a + a
  {}

  /** Of the `a` addresses up to `y`, a multiple of `a`, no other is one. */
  lemma OnlyMultiple(x: nat, a: nat, y: nat, q: nat)
    requires a > 0 && x % a == 0 && y == q * a && y - a < x < y + a
    ensures x == y
  {
    if x < y {
      Regrouped(q - 1, 0, a);
      DivModUnique(x, a, q - 1, x - (y - a));
    } else if x > y {
      DivModUnique(x, a, q, x - y);
    }
  }

  /** The next `size` bytes from `start` on. */
  function Handed(s: State, start: nat, size: nat): State
    requires s.blocks != []
  {
    s.(ptr := start + size, cells := s.cells + [Cell(start, size, |s.blocks| - 1)])
  }

  lemma HandedKeeps(c: Config, s: State, start: nat, size: nat)
    requires Inv(c, s) && start % c.alignment == 0 && s.ptr <= start && start + size <= s.blocks[|s.blocks| - 1].end
    ensures Inv(c, Handed(s, start, size))
  {
    hide Align, IsPowerOfTwo;
    var s', n := Handed(s, start, size), |s.blocks| - 1;
    forall i, j ensures BlocksApart(s', i, j) { assert BlocksApart(s, i, j); }
    forall i: nat | i < |s'.blocks| ensures Linked(c, s', i) { assert Linked(c, s, i); }
    forall i: nat | i < |s'.cells| ensures Placed(c, s', s'.cells[i]) {
      if i < |s.cells| { assert Placed(c, s, s.cells[i]); }
    }
    forall i: nat, j: nat ensures Disjoint(s', i, j) {
      assert Disjoint(s, i, j);
      if i < j == |s.cells| { BehindAll(c, s, i, start, size); }
    }
  }

  lemma BehindAll(c: Config, s: State, i: nat, start: nat, size: nat)
    requires Inv(c, s) && i < |s.cells| && s.ptr <= start && start + size <= s.blocks[|s.blocks| - 1].end
    ensures CellsApart(s.cells[i], Cell(start, size, |s.blocks| - 1))
  {
    hide Align, IsPowerOfTwo;
    var n, d := |s.blocks| - 1, s.cells[i];
    assert Placed(c, s, d) && BlocksApart(s, d.block, n);
    FloorInside(c, s, n);
    FloorInside(c, s, d.block);
  }

  // ---- the pool ----

  class MemoryPool {
    const c: Config
    var begin: nat
    var ptr: nat
    var end: nat
    var headers: map<nat, nat>
    ghost var blocks: seq<Block>
    ghost var cells: seq<Cell>

    ghost function Abs(): State
      reads this
    {
      State(ptr, headers, blocks, cells)
    }

    ghost predicate Valid()
      reads this
    {
      Inv(c, Abs()) && begin == blocks[|blocks| - 1].begin && end == blocks[|blocks| - 1].end
    }

    constructor (c: Config)
      requires Configured(c)
      ensures Valid() && this.c == c && cells == [] && |blocks| == 1
      ensures ptr % c.alignment == 0 && c.staticMemory <= ptr < c.staticMemory + c.alignment
    {
      hide Align;
      AlignIsCeiling(c.staticMemory, c.alignment);
      this.c := c;
      begin, ptr, end := c.staticMemory, Align(c.staticMemory, c.alignment), c.staticMemory + c.staticSize;
      headers, cells, blocks := map[], [], [Block(c.staticMemory, c.staticMemory + c.staticSize)];
    }

    /** allocate_aligned; `raw` is where the system's allocator puts a new block if one is needed,
        in memory that belongs to no other block. */
    method AllocateAligned(size: nat, raw: nat) returns (result: nat)
      requires Valid()
      requires Align(ptr, c.alignment) + size > end ==>
                 forall i: nat | i < |blocks| :: Apart(blocks[i], Block(raw, raw + AllocSize(c, size)))
      modifies this
      ensures Valid() && cells == old(cells) + [Cell(result, size, |blocks| - 1)]
      ensures blocks == if Align(old(ptr), c.alignment) + size > old(end)
                        then old(blocks) + [Block(raw, raw + AllocSize(c, size))]
                        else old(blocks)
      ensures result % c.alignment == 0 && ptr == result + size
      ensures var from := if blocks == old(blocks) then old(ptr) else Align(raw, c.alignment) + c.headerSize;
              from <= result < from + c.alignment
    {
      hide Inv, Align;
      ghost var s := Abs();
      InvFacts(c, s);
      AlignIsCeiling(ptr, c.alignment);
      result := Align(ptr, c.alignment);
      if result + size > end {
        GrownKeeps(c, s, raw, size);
        s := Grown(c, s, raw, size);
        var poolSize := c.dynamicSize;
        if poolSize < size {
          poolSize := size;
        }
        var allocSize := c.headerSize + (2 * c.alignment - 2) + poolSize;
        var pool := Align(raw, c.alignment);
        headers := headers[pool := begin];
        begin := raw;
        ptr := pool + c.headerSize;
        end := raw + allocSize;
        blocks := blocks + [Block(raw, raw + allocSize)];
        AlignIsCeiling(ptr, c.alignment);
        result := Align(ptr, c.alignment);
      }
      HandedKeeps(c, s, result, size);
      ptr := result + size;
      cells := cells + [Cell(result, size, |blocks| - 1)];
    }

    /** clear: every dynamic block is given back once, the latest first, and the pool is as new. */
    method Clear() returns (freed: seq<nat>)
      requires Valid()
      modifies this
      ensures Valid() && cells == [] && blocks == old(blocks)[..1]
      ensures freed == BackToFront(old(blocks))
      ensures ptr % c.alignment == 0 && c.staticMemory <= ptr < c.staticMemory + c.alignment
    {
      hide Inv, Align;
      ghost var s, k := Abs(), |blocks|;
      InvFacts(c, s);
      freed := [];
      while begin != c.staticMemory
        invariant 0 < k <= |s.blocks| && begin == s.blocks[k - 1].begin && headers == s.headers && Inv(c, s)
        invariant freed == BackToFront(s.blocks)[..|s.blocks| - k]
        decreases k
        modifies this`begin
      {
        HeaderLeads(c, s, k - 1);
        var previous := headers[Align(begin, c.alignment)];
        freed := freed + [begin];
        begin := previous;
        k := k - 1;
      }
      HeaderLeads(c, s, k - 1);
      assert BackToFront(s.blocks)[..|s.blocks| - 1] == BackToFront(s.blocks);
      AlignIsCeiling(c.staticMemory, c.alignment);
      begin, ptr, end := c.staticMemory, Align(c.staticMemory, c.alignment), c.staticMemory + c.staticSize;
      blocks, cells := blocks[..1], [];
      ClearedKeeps(c, s, Abs());
    }
  }

  /** The begins of the dynamic blocks, the current one first. */
  function BackToFront(blocks: seq<Block>): seq<nat>
    requires blocks != []
  {
    seq(|blocks| - 1, i requires 0 <= i < |blocks| - 1 => blocks[|blocks| - 1 - i].begin)
  }

  lemma HeaderLeads(c: Config, s: State, i: nat)
    requires Inv(c, s) && i < |s.blocks|
    ensures s.blocks[0] == Block(c.staticMemory, c.staticMemory + c.staticSize)
    ensures 0 < i ==>
              && s.blocks[i].begin != c.staticMemory
              && Align(s.blocks[i].begin, c.alignment) in s.headers
              && s.headers[Align(s.blocks[i].begin, c.alignment)] == s.blocks[i - 1].begin
  {
    hide Align, IsPowerOfTwo;
    assert Linked(c, s, i) && BlocksApart(s, 0, i);
    FloorInside(c, s, i);
  }

  lemma ClearedKeeps(c: Config, s: State, s': State)
    requires Inv(c, s) && s'.blocks == s.blocks[..1] && s'.cells == [] && s'.ptr == Align(c.staticMemory, c.alignment)
    ensures Inv(c, s')
  {
    hide Align, IsPowerOfTwo;
    AlignIsCeiling(c.staticMemory, c.alignment);
  }

  lemma InvFacts(c: Config, s: State)
    requires Inv(c, s)
    ensures Configured(c) && s.blocks != [] && s.ptr <= s.blocks[|s.blocks| - 1].end
  {
    hide Align, IsPowerOfTwo;
  }
}
