/** src/drts/stream.cpp as a protocol: one producer that fills slots of a shared buffer, and
    consumers that hand slots back by toggling one flag byte each. Every memory access that can
    interleave with the other side is a step of its own. */
module StreamSlots {
  import opened Words
  import opened Wrappers

  /** What a consumer writes: 1 - f, narrowed to a byte. */
  function Toggled(f: Byte): (t: Byte)
    ensures t != f && (t + f) % 256 == 1
  {
    (1 - f) % 256
  }

  /** Toggling twice restores the flag, and 0 and 1 are exchanged. */
  lemma ToggledTwice(f: Byte)
    ensures Toggled(Toggled(f)) == f && Toggled(0) == 1 && Toggled(1) == 0
  {}

  /** Where slot i begins. */
  function SlotStart(i: nat, size: nat): nat { i * size }

  /** What the producer hands out: the slot, its payload, the flag value to toggle, a number. */
  datatype Token = Token(slot: nat, data: seq<Byte>, flag: Byte, id: nat)

  /** How far the current write has got. `busy` remembers, for the slots whose flag bytes have
      been read, whether they were unacknowledged at that moment. */
  datatype Phase =
    | Idle
    | Snapshot(data: seq<Byte>, update: seq<Byte>, busy: seq<bool>)
    | Choosing(data: seq<Byte>)
    | Filling(data: seq<Byte>, slot: nat, filled: nat)

  datatype Stream = Stream(
    slotSize: nat,
    slots: nat,
    buffer: seq<Byte>,           // payload slots, then one flag byte per slot
    flags: seq<Byte>,            // _flags, the producer's copy
    free: set<nat>,              // _free_slots
    sequence: nat,
    phase: Phase,
    outstanding: set<Token>)     // handed out and not yet acknowledged
  {
    /** _offset_to_meta_data */
    function Meta(): nat { SlotStart(slots, slotSize) }

    predicate InHand(i: nat) { phase.Filling? && phase.slot == i }

    ghost predicate Held(i: nat) { exists t :: t in outstanding && t.slot == i }
  }

  datatype Event =
    | Begin(data: seq<Byte>)
    | TooLarge(data: seq<Byte>)
    | CopyFlag
    | Merge
    | NoMoreSlots
    | Choose(slot: nat)
    | CopyByte
    | Publish(token: Token)
    | Acknowledge(token: Token)

  // ---- layout ----

  lemma SlotInside(i: nat, n: nat, size: nat)
    requires i < n
    ensures SlotStart(i, size) + size <= SlotStart(n, size)
  {
    assert (n - i - 1) * size >= 0;
    assert n * size == i * size + size + (n - i - 1) * size;
  }

  lemma SlotsApart(i: nat, j: nat, size: nat)
    requires i != j
    ensures SlotStart(i, size) + size <= SlotStart(j, size) || SlotStart(j, size) + size <= SlotStart(i, size)
  {
    if i < j { SlotInside(i, j, size); } else { SlotInside(j, i, size); }
  }

  /** The most slots that fit the buffer together with their flag bytes. */
  function NumberOfSlots(available: nat, slotSize: nat): (n: nat)
    ensures SlotStart(n, slotSize) + n <= available < SlotStart(n + 1, slotSize) + (n + 1)
  {
    var n := available / (slotSize + 1);
    assert n * (slotSize + 1) + available % (slotSize + 1) == available;
    assert n * (slotSize + 1) == n * slotSize + n;
    assert (n + 1) * (slotSize + 1) == (n + 1) * slotSize + (n + 1);
    n
  }

  datatype Refusal = TooSmall(required: Word) | DivisionByZero

  /** get_number_of_slots_or_throw: the divisor wraps to zero for the largest slot size. */
  function SlotsOrThrow(available: Word, slotSize: Word): (r: Result<Word, Refusal>)
    ensures r == Err(DivisionByZero) <==> slotSize == TWO_64 - 1
    ensures r.Err? && r.error.TooSmall? <==> available < slotSize + 1 < TWO_64
    ensures r.Err? && r.error.TooSmall? ==> r.error.required == slotSize + 1
    ensures r.Ok? ==> 0 < r.value && SlotStart(r.value, slotSize) + r.value <= available
    ensures r.Ok? ==> r.value == NumberOfSlots(available, slotSize)
  {
    var divisor := (slotSize + 1) % TWO_64;
    if divisor == 0 then Err(DivisionByZero)
    else
      var n := available / divisor;
      OneSlotFits(available, slotSize);
      assert n == NumberOfSlots(available, slotSize);
      if n == 0 then Err(TooSmall(divisor)) else Ok(n)
  }

  lemma OneSlotFits(available: nat, slotSize: nat)
    ensures NumberOfSlots(available, slotSize) == 0 <==> available < slotSize + 1
  {}

  ghost predicate Shape(s: Stream) {
    && 0 < s.slots && |s.flags| == s.slots && s.Meta() + s.slots <= |s.buffer|
    && (forall i | i in s.free :: i < s.slots)
    && (s.phase.Snapshot? ==> |s.phase.update| == |s.phase.busy| <= s.slots && s.free == {})
    && (s.phase.Choosing? ==> s.free != {})
    && (s.phase.Filling? ==> s.phase.slot < s.slots && s.phase.filled <= |s.phase.data|)
    && (!s.phase.Idle? ==> |s.phase.data| <= s.slotSize)
  }

  /** The flag byte of slot i in the shared buffer. */
  function FlagByte(s: Stream, i: nat): Byte
    requires i < s.slots && s.Meta() + s.slots <= |s.buffer|
  {
    s.buffer[s.Meta() + i]
  }

  /** `data` stands at the start of slot i. */
  ghost predicate Payload(s: Stream, i: nat, data: seq<Byte>) {
    && SlotStart(i, s.slotSize) + |data| <= |s.buffer|
    && s.buffer[SlotStart(i, s.slotSize)..SlotStart(i, s.slotSize) + |data|] == data
  }

  // ---- where a slot can be ----

  ghost predicate Free(s: Stream, i: nat) { i in s.free && !s.Held(i) && !s.InHand(i) }

  ghost predicate Outstanding(s: Stream, i: nat) { s.Held(i) && i !in s.free && !s.InHand(i) }

  /** Acknowledged, but the producer has not looked yet. */
  ghost predicate Released(s: Stream, i: nat) { i !in s.free && !s.Held(i) && !s.InHand(i) }

  ghost predicate BeingFilled(s: Stream, i: nat) { s.InHand(i) && i !in s.free && !s.Held(i) }

  /** Every slot is in one of the four places, and its flag bytes say in which. */
  ghost predicate SlotKnown(s: Stream, i: nat)
    requires Shape(s) && i < s.slots
  {
    && (Free(s, i) || Outstanding(s, i) || Released(s, i) || BeingFilled(s, i))
    && FlagByte(s, i) == (if Released(s, i) then Toggled(s.flags[i]) else s.flags[i])
  }

  ghost predicate TokenSound(s: Stream, t: Token)
    requires Shape(s)
  {
    && t.slot < s.slots && |t.data| <= s.slotSize && t.flag == s.flags[t.slot] && t.id < s.sequence
    && Payload(s, t.slot, t.data)
  }

  ghost predicate SameToken(s: Stream, t: Token, u: Token) {
    t in s.outstanding && u in s.outstanding && (t.slot == u.slot || t.id == u.id) ==> t == u
  }

  /** What has been read of the flag bytes is still worth something when it is used. */
  ghost predicate SnapshotSound(s: Stream)
    requires Shape(s)
  {
    s.phase.Snapshot? ==>
      forall j | 0 <= j < |s.phase.update| ::
        && (s.phase.busy[j] <==> s.phase.update[j] == s.flags[j])
        && (!s.phase.busy[j] ==> Released(s, j) && s.phase.update[j] == Toggled(s.flags[j]))
  }

  ghost predicate Inv(s: Stream) {
    && Shape(s)
    && (forall i: nat | i < s.slots :: SlotKnown(s, i))
    && (forall t | t in s.outstanding :: TokenSound(s, t))
    && (forall t, u :: SameToken(s, t, u))
    && SnapshotSound(s)
    && (s.phase.Filling? ==> Payload(s, s.phase.slot, s.phase.data[..s.phase.filled]))
  }

  // ---- steps ----

  ghost predicate Next(s: Stream, e: Event, s': Stream)
    requires Shape(s)
  {
    match e
    case TooLarge(data) => s.phase.Idle? && |data| > s.slotSize && s' == s
    case Begin(data) =>
      && s.phase.Idle? && |data| <= s.slotSize
      && s' == s.(phase := if s.free == {} then Snapshot(data, [], []) else Choosing(data))
    case CopyFlag =>
      && s.phase.Snapshot? && |s.phase.update| < s.slots
      && var j := |s.phase.update|;
         s' == s.(phase := s.phase.(update := s.phase.update + [FlagByte(s, j)], busy := s.phase.busy + [s.Held(j)]))
    case Merge =>
      && s.phase.Snapshot? && |s.phase.update| == s.slots && s.phase.update != s.flags
      && s' == s.(flags := s.phase.update, free := Differing(s.flags, s.phase.update), phase := Choosing(s.phase.data))
    case NoMoreSlots =>
      && s.phase.Snapshot? && |s.phase.update| == s.slots && s.phase.update == s.flags
      && s' == s.(phase := Idle)
    case Choose(slot) =>
      && s.phase.Choosing? && slot in s.free
      && s' == s.(free := s.free - {slot}, phase := Filling(s.phase.data, slot, 0))
    case CopyByte =>
      && s.phase.Filling? && s.phase.filled < |s.phase.data|
      && var at := SlotStart(s.phase.slot, s.slotSize) + s.phase.filled;
         && at < |s.buffer|
         && s' == s.(buffer := s.buffer[at := s.phase.data[s.phase.filled]],
                     phase := s.phase.(filled := s.phase.filled + 1))
    case Publish(token) =>
      && s.phase.Filling? && s.phase.filled == |s.phase.data|
      && token == Token(s.phase.slot, s.phase.data, s.flags[s.phase.slot], s.sequence)
      && s' == s.(sequence := s.sequence + 1, phase := Idle, outstanding := s.outstanding + {token})
    case Acknowledge(token) =>
      && token in s.outstanding && token.slot < s.slots
      && s' == s.(buffer := s.buffer[s.Meta() + token.slot := Toggled(token.flag)],
                  outstanding := s.outstanding - {token})
  }

  function Differing(a: seq<Byte>, b: seq<Byte>): set<nat>
    requires |a| == |b|
  {
    set i: nat | i < |a| && a[i] != b[i]
  }

  // ---- every step keeps the invariant ----

  lemma BeginKeeps(s: Stream, e: Event, s': Stream)
    requires Inv(s) && Next(s, e, s') && (e.Begin? || e.TooLarge? || e.NoMoreSlots?)
    ensures Inv(s')
  {
    hide SlotStart;
    forall i: nat | i < s'.slots ensures SlotKnown(s', i) { assert SlotKnown(s, i); }
    forall t | t in s'.outstanding ensures TokenSound(s', t) { assert TokenSound(s, t); }
    forall t, u ensures SameToken(s', t, u) { assert SameToken(s, t, u); }
  }

  lemma CopyFlagKeeps(s: Stream, s': Stream)
    requires Inv(s) && Next(s, CopyFlag, s')
    ensures Inv(s')
  {
    hide SlotStart;
    var j := |s.phase.update|;
    assert SlotKnown(s, j);
    forall i: nat | i < s'.slots ensures SlotKnown(s', i) { assert SlotKnown(s, i); }
    forall t | t in s'.outstanding ensures TokenSound(s', t) { assert TokenSound(s, t); }
    forall t, u ensures SameToken(s', t, u) { assert SameToken(s, t, u); }
  }

  lemma MergeKeeps(s: Stream, s': Stream)
    requires Inv(s) && Next(s, Merge, s')
    ensures Inv(s')
  {
    hide SlotStart;
    forall i: nat | i < s'.slots ensures SlotKnown(s', i) { assert SlotKnown(s, i); }
    forall t | t in s'.outstanding ensures TokenSound(s', t) {
      assert TokenSound(s, t) && SlotKnown(s, t.slot) && s.Held(t.slot);
    }
    forall t, u ensures SameToken(s', t, u) { assert SameToken(s, t, u); }
    assert s'.free != {} by {
      var i :| 0 <= i < s.slots && s.phase.update[i] != s.flags[i];
      assert i in s'.free;
    }
  }

  lemma ChooseKeeps(s: Stream, slot: nat, s': Stream)
    requires Inv(s) && Next(s, Choose(slot), s')
    ensures Inv(s')
  {
    hide SlotStart;
    assert SlotKnown(s, slot);
    forall i: nat | i < s'.slots ensures SlotKnown(s', i) { assert SlotKnown(s, i); }
    forall t | t in s'.outstanding ensures TokenSound(s', t) { assert TokenSound(s, t); }
    forall t, u ensures SameToken(s', t, u) { assert SameToken(s, t, u); }
    EmptyPayload(s', slot);
    assert s.phase.data[..0] == [];
  }

  lemma EmptyPayload(s: Stream, i: nat)
    requires Shape(s) && i < s.slots
    ensures Payload(s, i, [])
  {
    hide SlotStart;
    SlotInside(i, s.slots, s.slotSize);
    var lo := SlotStart(i, s.slotSize);
    assert s.buffer[lo..lo] == [];
  }

  lemma PublishKeeps(s: Stream, token: Token, s': Stream)
    requires Inv(s) && Next(s, Publish(token), s')
    ensures Inv(s')
  {
    hide SlotStart;
    assert SlotKnown(s, token.slot);
    assert token in s'.outstanding;
    assert s.phase.data[..s.phase.filled] == token.data;
    forall i: nat | i < s'.slots ensures SlotKnown(s', i) {
      assert SlotKnown(s, i);
      HeldAfterPublish(s, token, s', i);
    }
    forall t | t in s'.outstanding ensures TokenSound(s', t) {
      if t != token { assert TokenSound(s, t); }
    }
    forall t, u ensures SameToken(s', t, u) {
      assert SameToken(s, t, u);
      if t in s.outstanding { assert TokenSound(s, t) && s.Held(t.slot); }
      if u in s.outstanding { assert TokenSound(s, u) && s.Held(u.slot); }
    }
  }

  lemma HeldAfterPublish(s: Stream, token: Token, s': Stream, i: nat)
    requires s'.outstanding == s.outstanding + {token}
    ensures s'.Held(i) <==> s.Held(i) || i == token.slot
  {
    if s.Held(i) {
      var t :| t in s.outstanding && t.slot == i;
      assert t in s'.outstanding;
    }
    assert token in s'.outstanding;
  }

  lemma PayloadStays(s: Stream, s': Stream, i: nat, data: seq<Byte>, at: nat)
    requires Payload(s, i, data) && at < |s.buffer| == |s'.buffer| && s'.slotSize == s.slotSize
    requires forall k | 0 <= k < |s.buffer| && k != at :: s'.buffer[k] == s.buffer[k]
    requires at < SlotStart(i, s.slotSize) || SlotStart(i, s.slotSize) + |data| <= at
    ensures Payload(s', i, data)
  {
    hide SlotStart;
    var lo := SlotStart(i, s.slotSize);
    assert s'.buffer[lo..lo + |data|] == s.buffer[lo..lo + |data|];
  }

  lemma CopyByteKeeps(s: Stream, s': Stream)
    requires Inv(s) && Next(s, CopyByte, s')
    ensures Inv(s')
  {
    hide SlotStart;
    var slot, k := s.phase.slot, s.phase.filled;
    var at := SlotStart(slot, s.slotSize) + k;
    SlotInside(slot, s.slots, s.slotSize);
    assert at < s.Meta();
    forall i: nat | i < s'.slots ensures SlotKnown(s', i) {
      assert SlotKnown(s, i) && FlagByte(s', i) == FlagByte(s, i);
    }
    forall t | t in s'.outstanding ensures TokenSound(s', t) {
      assert TokenSound(s, t) && SlotKnown(s, t.slot) && s.Held(t.slot);
      SlotsApart(t.slot, slot, s.slotSize);
      PayloadStays(s, s', t.slot, t.data, at);
    }
    forall t, u ensures SameToken(s', t, u) { assert SameToken(s, t, u); }
    FilledOn(s, s', slot, s.phase.data, k);
  }

  lemma FilledOn(s: Stream, s': Stream, slot: nat, data: seq<Byte>, k: nat)
    requires k < |data| && Payload(s, slot, data[..k]) && SlotStart(slot, s.slotSize) + |data| <= |s.buffer|
    requires s'.slotSize == s.slotSize && s'.buffer == s.buffer[SlotStart(slot, s.slotSize) + k := data[k]]
    ensures Payload(s', slot, data[..k + 1])
  {
    hide SlotStart;
    ExtendedBy(s.buffer, SlotStart(slot, s.slotSize), data, k);
  }

  lemma ExtendedBy(b: seq<Byte>, lo: nat, data: seq<Byte>, k: nat)
    requires k < |data| && lo + |data| <= |b| && b[lo..lo + k] == data[..k]
    ensures b[lo + k := data[k]][lo..lo + (k + 1)] == data[..k + 1]
  {
    var b' := b[lo + k := data[k]];
    assert data[..k + 1] == data[..k] + [data[k]];
    assert b'[lo..lo + k] == b[lo..lo + k];
    assert b'[lo..lo + (k + 1)] == b'[lo..lo + k] + [b'[lo + k]];
  }

  lemma HeldAfterAcknowledge(s: Stream, token: Token, s': Stream, i: nat)
    requires token in s.outstanding && s'.outstanding == s.outstanding - {token}
    requires forall t, u :: SameToken(s, t, u)
    ensures s'.Held(i) <==> s.Held(i) && i != token.slot
  {
    if s.Held(i) && i != token.slot {
      var t :| t in s.outstanding && t.slot == i;
      assert t in s'.outstanding;
    }
    if s'.Held(i) {
      var t :| t in s'.outstanding && t.slot == i;
      assert SameToken(s, t, token);
    }
  }

  lemma AcknowledgeKeeps(s: Stream, token: Token, s': Stream)
    requires Inv(s) && Next(s, Acknowledge(token), s')
    ensures Inv(s')
  {
    hide SlotStart;
    var at := s.Meta() + token.slot;
    assert TokenSound(s, token) && s.Held(token.slot) && SlotKnown(s, token.slot);
    forall i: nat ensures s'.Held(i) <==> s.Held(i) && i != token.slot { HeldAfterAcknowledge(s, token, s', i); }
    forall i: nat | i < s'.slots ensures SlotKnown(s', i) { assert SlotKnown(s, i); }
    forall t | t in s'.outstanding ensures TokenSound(s', t) {
      assert TokenSound(s, t);
      SlotInside(t.slot, s.slots, s.slotSize);
      PayloadStays(s, s', t.slot, t.data, at);
    }
    forall t, u ensures SameToken(s', t, u) { assert SameToken(s, t, u); }
    if s.phase.Filling? {
      SlotInside(s.phase.slot, s.slots, s.slotSize);
      PayloadStays(s, s', s.phase.slot, s.phase.data[..s.phase.filled], at);
    }
  }

  lemma NextKeeps(s: Stream, e: Event, s': Stream)
    requires Inv(s) && Next(s, e, s')
    ensures Inv(s')
  {
    match e
    case TooLarge(_) => BeginKeeps(s, e, s');
    case Begin(_) => BeginKeeps(s, e, s');
    case CopyFlag => CopyFlagKeeps(s, s');
    case Merge => MergeKeeps(s, s');
    case NoMoreSlots => BeginKeeps(s, e, s');
    case Choose(slot) => ChooseKeeps(s, slot, s');
    case CopyByte => CopyByteKeeps(s, s');
    case Publish(token) => PublishKeeps(s, token, s');
    case Acknowledge(token) => AcknowledgeKeeps(s, token, s');
  }

  // ---- whole runs ----

  predicate IsSlot(i: nat, n: nat) { i < n }

  function AllSlots(n: nat): set<nat> { set i: nat | i < n && IsSlot(i, n) }

  /** A stream over a buffer in which no slot is handed out, whatever its flag bytes are. */
  ghost predicate Initial(s: Stream) {
    && s.slots == NumberOfSlots(|s.buffer|, s.slotSize) && 0 < s.slots
    && s.flags == s.buffer[s.Meta()..s.Meta() + s.slots]
    && s.free == AllSlots(s.slots)
    && s.sequence == 0 && s.phase == Idle && s.outstanding == {}
  }

  lemma InitialSound(s: Stream)
    requires Initial(s)
    ensures Inv(s)
  {
    hide SlotStart;
    forall i: nat | i < s.slots ensures SlotKnown(s, i) {
      assert s.flags[i] == s.buffer[s.Meta() + i];
    }
  }

  /** Some interleaving of the producer and the consumers with these events leads to `s`. */
  ghost predicate Reaches(s0: Stream, events: seq<Event>, s: Stream) {
    if events == [] then s == s0
    else
      var n := |events| - 1;
      exists p :: Reaches(s0, events[..n], p) && Shape(p) && Next(p, events[n], s)
  }

  /** Tokens published and not acknowledged, judged from the events alone. */
  function Book(events: seq<Event>): set<Token> {
    if events == [] then {}
    else
      var book, e := Book(events[..|events| - 1]), events[|events| - 1];
      match e
      case Publish(token) => book + {token}
      case Acknowledge(token) => book - {token}
      case _ => book
  }

  function Published(events: seq<Event>): nat {
    if events == [] then 0
    else Published(events[..|events| - 1]) + if events[|events| - 1].Publish? then 1 else 0
  }

  lemma {:induction false} RunSound(s0: Stream, events: seq<Event>, s: Stream)
    requires Initial(s0) && Reaches(s0, events, s)
    ensures Inv(s) && s.slotSize == s0.slotSize && s.slots == s0.slots && |s.buffer| == |s0.buffer|
    ensures s.outstanding == Book(events) && s.sequence == Published(events)
  {
    hide Inv, Next, Initial, Shape;
    if events == [] {
      InitialSound(s0);
      NothingOut(s0);
    } else {
      var n := |events| - 1;
      var p :| Reaches(s0, events[..n], p) && Shape(p) && Next(p, events[n], s);
      RunSound(s0, events[..n], p);
      NextKeeps(p, events[n], s);
      NextBooks(p, events[n], s);
    }
  }

  lemma NothingOut(s: Stream)
    requires Initial(s)
    ensures s.outstanding == {} && s.sequence == 0
  {}

  lemma NextBooks(s: Stream, e: Event, s': Stream)
    requires Shape(s) && Next(s, e, s')
    ensures s'.slotSize == s.slotSize && s'.slots == s.slots && |s'.buffer| == |s.buffer|
    ensures s'.sequence == s.sequence + if e.Publish? then 1 else 0
    ensures s'.outstanding == if e.Publish? then s.outstanding + {e.token}
                              else if e.Acknowledge? then s.outstanding - {e.token}
                              else s.outstanding
  {
    hide SlotStart;
  }

  /** The data of a token stand from `at` on, before the flag bytes at `meta`, and its flag stands in
      the byte of its slot there. */
  ghost predicate StandsAt(s: Stream, t: Token, at: nat, meta: nat) {
    && at + |t.data| <= meta <= |s.buffer| - s.slots && t.slot < s.slots
    && s.buffer[at..at + |t.data|] == t.data && s.buffer[meta + t.slot] == t.flag
  }

  /** Over every interleaving, tokens that are out have different slots and numbers below the
      count of writes, and each still finds in its slot the very bytes that were written, and its
      own flag in its flag byte: no slot is reused before its acknowledgement. Slot i begins at i
      times the slot size, and its flag stands i bytes behind the last slot. */
  lemma TokensKeepTheirSlots(s0: Stream, events: seq<Event>, s: Stream, t: Token)
    requires Initial(s0) && Reaches(s0, events, s) && t in Book(events)
    ensures t.id < Published(events) && t.slot < s.slots
    ensures StandsAt(s, t, t.slot * s.slotSize, s.slots * s.slotSize)
    ensures forall u | u in Book(events) && (u.slot == t.slot || u.id == t.id) :: u == t
  {
    hide Reaches, Initial, Inv, StandsAt;
    RunSound(s0, events, s);
    TokenPlace(s, t);
    forall u | u in Book(events) && (u.slot == t.slot || u.id == t.id) ensures u == t { TokenAlone(s, t, u); }
  }

  lemma TokenPlace(s: Stream, t: Token)
    requires Inv(s) && t in s.outstanding
    ensures t.id < s.sequence && t.slot < s.slots
    ensures StandsAt(s, t, t.slot * s.slotSize, s.slots * s.slotSize)
  {
    hide SlotStart;
    assert TokenSound(s, t) && s.Held(t.slot) && SlotKnown(s, t.slot);
    SlotInside(t.slot, s.slots, s.slotSize);
    SlotStartIs(t.slot, s.slotSize);
    SlotStartIs(s.slots, s.slotSize);
  }

  lemma SlotStartIs(i: nat, size: nat)
    ensures SlotStart(i, size) == i * size
  {}

  lemma TokenAlone(s: Stream, t: Token, u: Token)
    requires Inv(s) && t in s.outstanding && u in s.outstanding && (u.slot == t.slot || u.id == t.id)
    ensures u == t
  {
    assert SameToken(s, t, u);
  }

  /** Tokens are numbered in the order of publication. */
  lemma {:induction false} NumberedInOrder(s0: Stream, events: seq<Event>, s: Stream, k: nat)
    requires Initial(s0) && Reaches(s0, events, s) && k < |events| && events[k].Publish?
    ensures events[k].token.id == Published(events[..k])
    decreases |events|
  {
    hide Inv, Shape, Initial;
    var n := |events| - 1;
    var p :| Reaches(s0, events[..n], p) && Shape(p) && Next(p, events[n], s);
    if k == n {
      RunSound(s0, events[..n], p);
    } else {
      NumberedInOrder(s0, events[..n], p, k);
      assert events[..n][..k] == events[..k];
    }
  }

  /** No slot is ever lost: it is free, out, acknowledged but unseen, or being filled, and in
      exactly one of these. */
  lemma NoSlotIsLost(s0: Stream, events: seq<Event>, s: Stream, i: nat)
    requires Initial(s0) && Reaches(s0, events, s) && i < s.slots
    ensures Free(s, i) || Outstanding(s, i) || Released(s, i) || BeingFilled(s, i)
    ensures !(Free(s, i) && Outstanding(s, i)) && !(Free(s, i) && Released(s, i)) && !(Free(s, i) && BeingFilled(s, i))
    ensures !(Outstanding(s, i) && Released(s, i)) && !(Outstanding(s, i) && BeingFilled(s, i))
            && !(Released(s, i) && BeingFilled(s, i))
  {
    RunSound(s0, events, s);
    assert SlotKnown(s, i);
  }

  /** "No more free slots!" is raised exactly when every slot was out at the moment its flag
      byte was read, and otherwise a slot is there to choose. */
  lemma RefusedExactlyWhenAllOut(s0: Stream, events: seq<Event>, s: Stream)
    requires Initial(s0) && Reaches(s0, events, s) && s.phase.Snapshot? && |s.phase.update| == s.slots
    ensures (exists s' :: Next(s, NoMoreSlots, s')) <==> forall j | 0 <= j < s.slots :: s.phase.busy[j]
    ensures (exists s' :: Next(s, Merge, s')) <==> exists j :: 0 <= j < s.slots && !s.phase.busy[j]
  {
    hide SlotStart, Reaches, Initial;
    RunSound(s0, events, s);
    assert s.phase.update == s.flags <==> forall j | 0 <= j < s.slots :: s.phase.busy[j];
    if s.phase.update == s.flags {
      assert Next(s, NoMoreSlots, s.(phase := Idle));
    } else {
      var s' := s.(flags := s.phase.update, free := Differing(s.flags, s.phase.update),
                   phase := Choosing(s.phase.data));
      assert Next(s, Merge, s');
    }
  }

  /** The bytes a write touches lie in the slot being filled and inside the payload area, so
      the range checks of the allocation pass and no slot that is out is affected. */
  lemma WritesStayInTheirSlot(s0: Stream, events: seq<Event>, s: Stream)
    requires Initial(s0) && Reaches(s0, events, s) && s.phase.Filling?
    ensures SlotStart(s.phase.slot, s.slotSize) + |s.phase.data| <= s.Meta() <= |s.buffer|
    ensures s.Meta() + s.phase.slot + 1 <= |s.buffer|
    ensures forall t | t in s.outstanding ::
              SlotStart(t.slot, s.slotSize) + s.slotSize <= SlotStart(s.phase.slot, s.slotSize)
              || SlotStart(s.phase.slot, s.slotSize) + s.slotSize <= SlotStart(t.slot, s.slotSize)
  {
    hide SlotStart, Reaches, Initial;
    RunSound(s0, events, s);
    SlotInside(s.phase.slot, s.slots, s.slotSize);
    forall t | t in s.outstanding
      ensures SlotStart(t.slot, s.slotSize) + s.slotSize <= SlotStart(s.phase.slot, s.slotSize)
              || SlotStart(s.phase.slot, s.slotSize) + s.slotSize <= SlotStart(t.slot, s.slotSize)
    {
      assert SlotKnown(s, s.phase.slot) && s.Held(t.slot);
      SlotsApart(t.slot, s.phase.slot, s.slotSize);
    }
  }
}
