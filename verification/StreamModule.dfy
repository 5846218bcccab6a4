/** src/drts/stream.cpp: the producer. Each memory transfer is a loop over bytes, and every
    write is shown to be a run of the protocol in StreamSlots. */
module StreamModule {
  import opened Wrappers
  import opened Words
  import opened StreamSlots

  lemma ReachesMore(s0: Stream, events: seq<Event>, p: Stream, e: Event, s: Stream)
    requires Reaches(s0, events, p) && Shape(p) && Next(p, e, s)
    ensures Reaches(s0, events + [e], s)
  {
    hide Shape, Next;
    assert (events + [e])[..|events|] == events;
  }

  /** The producer alone: nothing is acknowledged during these events. */
  predicate ByProducer(events: seq<Event>) { forall i | 0 <= i < |events| :: !events[i].Acknowledge? }

  /** One more step of the producer. */
  lemma Take(s0: Stream, events: seq<Event>, p: Stream, e: Event, s: Stream)
    requires Reaches(s0, events, p) && Inv(p) && Next(p, e, s) && ByProducer(events) && !e.Acknowledge?
    ensures Reaches(s0, events + [e], s) && Inv(s) && ByProducer(events + [e])
  {
    hide Reaches, Next;
    ReachesMore(s0, events, p, e, s);
    NextKeeps(p, e, s);
  }

  /** Reading the remaining flag bytes with nobody else running. */
  lemma {:induction false} FlagsCopied(s0: Stream, events: seq<Event>, p: Stream)
          returns (events': seq<Event>, s: Stream)
    requires Reaches(s0, events, p) && Inv(p) && ByProducer(events) && p.phase.Snapshot?
    requires p.phase.update == FlagArea(p)[..|p.phase.update|]
    ensures Reaches(s0, events', s) && Inv(s) && ByProducer(events')
    ensures s.phase.Snapshot? && s.phase.update == FlagArea(p)
    ensures s == p.(phase := Snapshot(p.phase.data, FlagArea(p), s.phase.busy))
    decreases p.slots - |p.phase.update|
  {
    hide Reaches, SlotStart;
    var k := |p.phase.update|;
    if k == p.slots {
      events', s := events, p;
      assert FlagArea(p)[..k] == FlagArea(p);
    } else {
      var q := p.(phase := p.phase.(update := p.phase.update + [FlagByte(p, k)], busy := p.phase.busy + [p.Held(k)]));
      Take(s0, events, p, CopyFlag, q);
      assert FlagArea(p)[..k + 1] == FlagArea(p)[..k] + [FlagArea(p)[k]];
      events', s := FlagsCopied(s0, events + [CopyFlag], q);
    }
  }

  /** The flag bytes of the shared buffer. */
  ghost function FlagArea(s: Stream): seq<Byte>
    requires s.Meta() + s.slots <= |s.buffer|
  {
    s.buffer[s.Meta()..s.Meta() + s.slots]
  }

  function Overwritten(b: seq<Byte>, at: nat, data: seq<Byte>): seq<Byte>
    requires at + |data| <= |b|
  {
    b[..at] + data + b[at + |data|..]
  }

  lemma OverwrittenMore(b: seq<Byte>, at: nat, data: seq<Byte>, x: Byte)
    requires at + |data| < |b|
    ensures Overwritten(b, at, data + [x]) == Overwritten(b, at, data)[at + |data| := x]
  {}

  lemma OverwrittenNothing(b: seq<Byte>, at: nat)
    requires at <= |b|
    ensures Overwritten(b, at, []) == b
  {}

  /** Writing the rest of the payload with nobody else running. */
  lemma {:induction false} BytesCopied(s0: Stream, events: seq<Event>, p: Stream)
          returns (events': seq<Event>, s: Stream)
    requires Reaches(s0, events, p) && Inv(p) && ByProducer(events) && p.phase.Filling?
    requires SlotStart(p.phase.slot, p.slotSize) + |p.phase.data| <= |p.buffer|
    ensures Reaches(s0, events', s) && Inv(s) && ByProducer(events')
    ensures s == p.(buffer := Overwritten(p.buffer, SlotStart(p.phase.slot, p.slotSize), p.phase.data),
                    phase := p.phase.(filled := |p.phase.data|))
    decreases |p.phase.data| - p.phase.filled
  {
    hide Reaches, SlotStart;
    var k, at := p.phase.filled, SlotStart(p.phase.slot, p.slotSize);
    if k == |p.phase.data| {
      events', s := events, p;
      assert p.phase.data[..k] == p.phase.data;
      assert Overwritten(p.buffer, at, p.phase.data) == p.buffer;
    } else {
      var q := p.(buffer := p.buffer[at + k := p.phase.data[k]], phase := p.phase.(filled := k + 1));
      Take(s0, events, p, CopyByte, q);
      assert Overwritten(q.buffer, at, p.phase.data) == Overwritten(p.buffer, at, p.phase.data);
      events', s := BytesCopied(s0, events + [CopyByte], q);
    }
  }

  /** Every protocol state is reached from itself by doing nothing. */
  lemma Start(s: Stream)
    requires Inv(s)
    ensures Shape(s) && Reaches(s, [], s) && ByProducer([])
  {}

  lemma Declined(s: Stream, data: seq<Byte>)
    requires Inv(s) && s.phase.Idle? && |data| > s.slotSize
    ensures Reaches(s, [TooLarge(data)], s) && ByProducer([TooLarge(data)])
  {
    hide Reaches, SlotStart;
    Start(s);
    Take(s, [], s, TooLarge(data), s);
    assert [] + [TooLarge(data)] == [TooLarge(data)];
  }

  lemma ValidShape(s: Stream)
    requires Inv(s)
    ensures Shape(s)
  {}

  /** After the flag bytes have been read: slots come free, or the write is refused. */
  lemma Merged(s0: Stream, events: seq<Event>, p: Stream) returns (events': seq<Event>, s: Stream)
    requires Reaches(s0, events, p) && Inv(p) && ByProducer(events) && p.phase.Snapshot? && |p.phase.update| == p.slots
    ensures Reaches(s0, events', s) && Inv(s) && ByProducer(events')
    ensures s == p.(flags := p.phase.update, free := Differing(p.flags, p.phase.update), phase := s.phase)
    ensures s.phase == if p.flags == p.phase.update then Idle else Choosing(p.phase.data)
    ensures s.free == {} <==> p.flags == p.phase.update
  {
    hide Reaches, SlotStart;
    if p.flags == p.phase.update {
      s := p.(phase := Idle);
      Take(s0, events, p, NoMoreSlots, s);
      events' := events + [NoMoreSlots];
      assert Differing(p.flags, p.phase.update) == {};
    } else {
      s := p.(flags := p.phase.update, free := Differing(p.flags, p.phase.update), phase := Choosing(p.phase.data));
      Take(s0, events, p, Merge, s);
      events' := events + [Merge];
    }
  }

  /** The free slots a write sees: read from the flag bytes only when none is known. */
  ghost function Available(s: Stream): set<nat>
    requires Shape(s)
  {
    if s.free == {} then Differing(s.flags, FlagArea(s)) else s.free
  }

  ghost function Seen(s: Stream): seq<Byte>
    requires Shape(s)
  {
    if s.free == {} then FlagArea(s) else s.flags
  }

  /** With nobody else running, a write finds a slot exactly when some slot is not out. */
  lemma AvailableExactly(s: Stream)
    requires Inv(s) && s.phase.Idle?
    ensures Available(s) != {} <==> exists i: nat :: i < s.slots && !s.Held(i)
    ensures forall i | i in Available(s) :: i < s.slots && !s.Held(i)
  {
    hide SlotStart;
    forall i | i in Available(s) ensures i < s.slots && !s.Held(i) { assert SlotKnown(s, i); }
    if s.free == {} {
      forall i: nat | i < s.slots ensures i in Available(s) <==> !s.Held(i) { assert SlotKnown(s, i); }
    } else {
      var i :| i in s.free;
      assert SlotKnown(s, i);
    }
  }

  lemma Opened(s0: Stream, data: seq<Byte>) returns (events: seq<Event>, s: Stream)
    requires Inv(s0) && s0.phase.Idle? && |data| <= s0.slotSize
    ensures Reaches(s0, events, s) && Inv(s) && ByProducer(events)
    ensures s == s0.(flags := Seen(s0), free := Available(s0),
                     phase := if Available(s0) == {} then Idle else Choosing(data))
  {
    hide Reaches, SlotStart;
    s := s0.(phase := if s0.free == {} then Snapshot(data, [], []) else Choosing(data));
    Start(s0);
    Take(s0, [], s0, Begin(data), s);
    events := [] + [Begin(data)];
    if s0.free == {} {
      events, s := FlagsCopied(s0, events, s);
      events, s := Merged(s0, events, s);
    }
  }

  /** A write without a free slot changes nothing. */
  lemma Refused(s0: Stream, data: seq<Byte>) returns (events: seq<Event>)
    requires Inv(s0) && s0.phase.Idle? && |data| <= s0.slotSize && Available(s0) == {}
    ensures Reaches(s0, events, s0) && ByProducer(events)
    ensures Seen(s0) == s0.flags && s0.free == {}
  {
    hide Reaches, SlotStart;
    var s;
    events, s := Opened(s0, data);
    assert FlagArea(s0) == s0.flags by {
      assert forall i: nat | i < s0.slots :: i in Available(s0) <==> s0.flags[i] != FlagArea(s0)[i];
    }
  }

  ghost function Stamp(s: Stream, slot: nat, data: seq<Byte>): Token
    requires Shape(s) && slot < s.slots
  {
    Token(slot, data, Seen(s)[slot], s.sequence)
  }

  /** A write into an available slot, from its first step to its last. */
  lemma Accepted(s0: Stream, data: seq<Byte>, slot: nat) returns (events: seq<Event>, s: Stream)
    requires Inv(s0) && s0.phase.Idle? && |data| <= s0.slotSize && slot in Available(s0)
    ensures Reaches(s0, events, s) && Inv(s) && ByProducer(events)
    ensures slot < s0.slots && SlotStart(slot, s0.slotSize) + |data| <= |s0.buffer|
    ensures s == s0.(buffer := Overwritten(s0.buffer, SlotStart(slot, s0.slotSize), data), flags := Seen(s0),
                     free := Available(s0) - {slot}, sequence := s0.sequence + 1,
                     outstanding := s0.outstanding + {Stamp(s0, slot, data)})
  {
    hide Reaches, SlotStart;
    var p;
    events, p := Opened(s0, data);
    SlotInside(slot, s0.slots, s0.slotSize);
    s := p.(free := p.free - {slot}, phase := Filling(data, slot, 0));
    Take(s0, events, p, Choose(slot), s);
    events, p := BytesCopied(s0, events + [Choose(slot)], s);
    var token := Stamp(s0, slot, data);
    s := p.(sequence := p.sequence + 1, phase := Idle, outstanding := p.outstanding + {token});
    Take(s0, events, p, Publish(token), s);
    events := events + [Publish(token)];
  }

  /** One run continued by another. */
  lemma {:induction false} ReachesJoin(s0: Stream, first: seq<Event>, s1: Stream, second: seq<Event>, s2: Stream)
    requires Reaches(s0, first, s1) && Reaches(s1, second, s2)
    ensures Reaches(s0, first + second, s2)
    decreases |second|
  {
    hide Shape, Next;
    if second == [] {
      assert first + second == first;
    } else {
      var n := |second| - 1;
      var p :| Reaches(s1, second[..n], p) && Shape(p) && Next(p, second[n], s2);
      ReachesJoin(s0, first, s1, second[..n], p);
      assert (first + second)[..|first| + n] == first + second[..n];
      ReachesMore(s0, first + second[..n], p, second[n], s2);
      assert first + second[..n] + [second[n]] == first + second;
    }
  }

  /** A stream over this buffer before its first step. */
  ghost function Untouched(slotSize: nat, buffer: seq<Byte>): Stream {
    var n := NumberOfSlots(|buffer|, slotSize);
    var meta := SlotStart(n, slotSize);
    Stream(slotSize, n, buffer, buffer[meta..meta + n], AllSlots(n), 0, Idle, {})
  }

  lemma UntouchedInitial(slotSize: nat, buffer: seq<Byte>)
    requires 0 < NumberOfSlots(|buffer|, slotSize)
    ensures var s := Untouched(slotSize, buffer); Initial(s) && Reaches(s, [], s)
  {}

  class Producer {
    const slotSize: Word
    const slots: Word
    const buffer: array<Byte>
    const flags: array<Byte>
    const update: array<Byte>
    const content: array<Byte>
    var freeSlots: set<nat>
    var sequence: nat
    ghost var outstanding: set<Token>
    ghost const origin: Stream        // the stream as it was created
    ghost var history: seq<Event>     // every step since then, the consumers' included

    ghost predicate Separate() {
      && buffer != flags && buffer != update && buffer != content
      && flags != update && flags != content && update != content
      && flags.Length == slots && update.Length == slots && content.Length == slotSize
    }

    ghost function Abs(): Stream
      reads this, buffer, flags
    {
      Stream(slotSize, slots, buffer[..], flags[..], freeSlots, sequence, Idle, outstanding)
    }

    ghost predicate Valid()
      reads this, buffer, flags
    {
      Separate() && Initial(origin) && Reaches(origin, history, Abs())
    }

    constructor (buffer: array<Byte>, slotSize: Word)
      requires buffer.Length < TWO_64 && SlotsOrThrow(buffer.Length, slotSize).Ok?
      ensures Valid() && history == [] && this.buffer == buffer && this.slotSize == slotSize
      ensures fresh(flags) && fresh(update) && fresh(content)
    {
      hide SlotStart, Initial, Reaches;
      var n := SlotsOrThrow(buffer.Length, slotSize).value;
      origin := Untouched(slotSize, buffer[..]);
      history := [];
      var f := new Byte[n](_ => 0);
      var u := new Byte[n](_ => 0);
      var c := new Byte[slotSize](_ => 0);
      this.buffer, this.slotSize, slots := buffer, slotSize, n;
      flags, update, content := f, u, c;
      freeSlots, sequence, outstanding := {}, 0, {};
      new;
      Transfer(flags, 0, buffer, SlotStart(n, slotSize), n);
      var slot := 0;
      while slot < slots
        invariant slot <= slots && freeSlots == AllSlots(slot) && sequence == 0 && outstanding == {}
        invariant flags[..] == buffer[SlotStart(n, slotSize)..SlotStart(n, slotSize) + n]
        modifies `freeSlots
      {
        freeSlots := freeSlots + {slot};
        slot := slot + 1;
      }
      assert Abs() == origin;
      UntouchedInitial(slotSize, buffer[..]);
    }

    /** Construction fails exactly when the buffer is smaller than one slot and its flag, or when
        the slot size is the largest of all. */
    static method Create(buffer: array<Byte>, slotSize: Word) returns (r: Result<Producer, Refusal>)
      requires buffer.Length < TWO_64
      ensures r.Ok? <==> slotSize < buffer.Length
      ensures r == Err(DivisionByZero) <==> slotSize == TWO_64 - 1
      ensures r.Err? && r.error.TooSmall? ==> r.error.required == slotSize + 1
      ensures r.Ok? ==> fresh(r.value) && r.value.Valid() && r.value.history == []
      ensures r.Ok? ==> r.value.buffer == buffer && r.value.slotSize == slotSize
    {
      hide Initial, Reaches, SlotStart;
      OneSlotFits(buffer.Length, slotSize);
      match SlotsOrThrow(buffer.Length, slotSize)
      case Err(e) => r := Err(e);
      case Ok(_) =>
        var p := new Producer(buffer, slotSize);
        r := Ok(p);
    }

    /** memcpy_and_wait between two different allocations. */
    static method Transfer(target: array<Byte>, to: nat, source: array<Byte>, from: nat, size: nat)
      requires target != source && to + size <= target.Length && from + size <= source.Length
      modifies target
      ensures target[..] == Overwritten(old(target[..]), to, source[from..from + size])
    {
      hide Overwritten;
      var k := 0;
      ghost var before := target[..];
      OverwrittenNothing(before, to);
      assert source[from..from] == [];
      while k < size
        invariant k <= size && target[..] == Overwritten(before, to, source[from..from + k])
      {
        target[to + k] := source[from + k];
        OverwrittenMore(before, to, source[from..from + k], source[from + k]);
        assert source[from..from + (k + 1)] == source[from..from + k] + [source[from + k]];
        k := k + 1;
      }
    }

    /** The slots whose flag byte has changed become free. */
    method MergeUpdate()
      requires Separate() && freeSlots == {}
      modifies this`freeSlots, flags
      ensures flags[..] == update[..] && freeSlots == Differing(old(flags[..]), update[..])
    {
      var slot := 0;
      ghost var before := flags[..];
      while slot < slots
        invariant slot <= slots && |before| == slots
        invariant forall i | 0 <= i < slots :: flags[i] == if i < slot then update[i] else before[i]
        invariant freeSlots == Differing(before[..slot], update[..slot])
      {
        if update[slot] != flags[slot] {
          flags[slot] := update[slot];
          freeSlots := freeSlots + {slot};
        }
        slot := slot + 1;
      }
      assert before[..slot] == before && update[..slot] == update[..];
    }

    /** The producer's own copy of the payload. */
    method FillContent(data: seq<Byte>)
      requires |data| <= content.Length
      modifies content
      ensures content[..|data|] == data
    {
      var k := 0;
      while k < |data|
        invariant k <= |data| && content[..k] == data[..k]
      {
        content[k] := data[k];
        k := k + 1;
      }
    }

    /** The flag bytes are read only when no free slot is known. */
    method Refresh()
      requires Separate() && Shape(Abs())
      modifies this`freeSlots, flags, update
      ensures freeSlots == Available(old(Abs())) && flags[..] == Seen(old(Abs()))
    {
      hide SlotStart;
      if freeSlots == {} {
        Transfer(update, 0, buffer, SlotStart(slots, slotSize), slots);
        assert update[..] == FlagArea(Abs());
        MergeUpdate();
      }
    }

    method Deliver(slot: nat, data: seq<Byte>)
      requires Separate() && |data| <= slotSize && SlotStart(slot, slotSize) + |data| <= buffer.Length
      modifies buffer, content
      ensures buffer[..] == Overwritten(old(buffer[..]), SlotStart(slot, slotSize), data)
    {
      hide SlotStart;
      FillContent(data);
      Transfer(buffer, SlotStart(slot, slotSize), content, 0, |data|);
    }

    /** A write continues the run by steps of its own. It succeeds exactly when the data fit a slot
        and some slot is not out, and then publishes a token for these data. */
    method Write(data: seq<Byte>) returns (r: Result<Token, string>)
      requires Valid()
      modifies this, buffer, flags, update, content
      ensures Valid() && old(history) <= history && ByProducer(history[|old(history)|..])
      ensures r.Ok? <==> |data| <= slotSize && exists i: nat :: i < slots && !old(Abs()).Held(i)
      ensures r.Ok? ==> r.value.data == data && outstanding == old(outstanding) + {r.value}
      ensures r.Ok? ==> sequence == old(sequence) + 1 && r.value.id == old(sequence)
      ensures r.Ok? ==> r.value.slot < slots && !old(Abs()).Held(r.value.slot)
      ensures r.Err? ==> r.error == if |data| > slotSize then "data size > slot size" else "No more free slots!"
      ensures r.Err? ==> outstanding == old(outstanding) && sequence == old(sequence) && buffer[..] == old(buffer[..])
    {
      hide Reaches, SlotStart, Inv, Initial, ByProducer, Available, Seen, Overwritten;
      ghost var s0, events := Abs(), [];
      RunSound(origin, history, s0);
      ValidShape(s0);
      AvailableExactly(s0);
      if |data| > slotSize {
        Declined(s0, data);
        events := [TooLarge(data)];
        r := Err("data size > slot size");
      } else {
        Refresh();
        if freeSlots == {} {
          events := Refused(s0, data);
          assert Abs() == s0;
          r := Err("No more free slots!");
        } else {
          var slot :| slot in freeSlots;
          freeSlots := freeSlots - {slot};
          ghost var s;
          events, s := Accepted(s0, data, slot);
          Deliver(slot, data);
          var token := Token(slot, data, flags[slot], sequence);
          sequence := sequence + 1;
          outstanding := outstanding + {token};
          r := Ok(token);
          assert Abs() == s;
        }
      }
      ReachesJoin(origin, history, s0, events, Abs());
      history := history + events;
      assert history[|old(history)|..] == events;
    }

    /** A consumer hands a slot back by writing the toggled flag value into its flag byte. */
    method MarkFree(token: Token)
      requires Valid() && token in outstanding
      modifies this`outstanding, this`history, buffer
      ensures Valid() && history == old(history) + [Acknowledge(token)]
      ensures outstanding == old(outstanding) - {token}
      ensures forall k | 0 <= k < buffer.Length ::
                buffer[k] == if k == slots * slotSize + token.slot then Toggled(token.flag) else old(buffer[k])
    {
      hide Reaches, Initial;
      ghost var s0 := Abs();
      RunSound(origin, history, s0);
      assert TokenSound(s0, token);
      buffer[SlotStart(slots, slotSize) + token.slot] := Toggled(token.flag);
      outstanding := outstanding - {token};
      ReachesMore(origin, history, s0, Acknowledge(token), Abs());
      history := history + [Acknowledge(token)];
    }
  }
}
