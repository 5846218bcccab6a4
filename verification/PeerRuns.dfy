/** What holds of a peer over whole runs: the order of messages on each connection, how often
    each handler is called, and which receive handler gets which message. */
module PeerRuns {
  import opened Wrappers
  import opened PeerQueues

  lemma {:induction false} RunSound(me: Address, events: seq<Event>)
    requires Run(Initial(me), events).Some?
    ensures Inv(Run(Initial(me), events).value)
  {
    hide Inv, Step;
    if events == [] {
      InitialSound(me);
    } else {
      RunSound(me, events[..|events| - 1]);
      StepKeeps(Run(Initial(me), events[..|events| - 1]).value, events[|events| - 1]);
    }
  }

  lemma InitialSound(me: Address)
    ensures Inv(Initial(me))
  {
    hide Handlers, LinkOk;
    var s := Initial(me);
    NoHandlers();
    assert ReceiveOk(s) && LinksOk(s);
    NoLinks(s);
  }

  lemma NoHandlers()
    ensures Handlers([]) == []
  {}

  lemma NoLinks(s: Peer)
    requires s.links == map[] && s.log.refused == []
    ensures HandlersOk(s) && RefusedOk(s)
  {
    forall a, i: nat, b, j: nat ensures Sole(s, a, i, b, j) {}
    forall a, i: nat, k: nat ensures Before(s, a, i, k) {}
  }

  // ---- sending ----

  function Offered(l: Link): seq<Option<Message>> {
    seq(|l.accepted|, k requires 0 <= k < |l.accepted| => Some(l.accepted[k].message))
  }

  function Waiting(q: seq<Queued>): seq<Option<Message>> { seq(|q|, k requires 0 <= k < |q| => q[k].message) }

  /** On a connection that is not being torn down at most one message is below the queue, and it
      is the one of the queue's front; written, in flight and waiting messages together are the
      accepted ones in their order, and nothing is sent twice or after being moved away. */
  lemma OneInFlight(me: Address, events: seq<Event>, s: Peer, a: Address)
    requires Run(Initial(me), events) == Some(s) && a in s.links && ModeOf(s, a) == Open
    ensures var l := s.links[a];
            && |l.posted + l.toSend| <= 1
            && (l.posted + l.toSend != [] <==> l.queue != [])
            && (l.queue != [] ==> |l.wire| < |l.accepted| && l.queue[0].handler == l.accepted[|l.wire|].handler
                                  && l.posted + l.toSend == [Some(l.accepted[|l.wire|].message)])
            && l.wire + (l.posted + l.toSend) + Waiting(l.queue)[if l.queue == [] then 0 else 1..] == Offered(l)
  {
    hide Run, Inv, LinkOk, Waiting, Offered;
    RunSound(me, events);
    LinkOf(s, a);
    InFlight(s.links[a]);
  }

  lemma InFlight(l: Link)
    requires LinkOk(l, Open)
    ensures |l.posted + l.toSend| <= 1 && (l.posted + l.toSend != [] <==> l.queue != [])
    ensures l.queue != [] ==> |l.wire| < |l.accepted| && l.queue[0].handler == l.accepted[|l.wire|].handler
    ensures l.queue != [] ==> l.posted + l.toSend == [Some(l.accepted[|l.wire|].message)]
    ensures l.wire + (l.posted + l.toSend) + Waiting(l.queue)[if l.queue == [] then 0 else 1..] == Offered(l)
  {
    WireOffered(l);
    if l.queue == [] {
      assert Waiting(l.queue)[0..] == [];
    } else {
      WaitingOffered(l);
      var n := |l.wire|;
      assert Offered(l) == Offered(l)[..n] + [Offered(l)[n]] + Offered(l)[n + 1..];
    }
  }

  lemma WireOffered(l: Link)
    requires Ordered(l)
    ensures |l.wire| <= |Offered(l)| && l.wire == Offered(l)[..|l.wire|]
  {}

  lemma WaitingOffered(l: Link)
    requires |l.wire| < |l.accepted| && l.queue != [] && Unsent(l.queue[1..], l.accepted[|l.wire| + 1..])
    ensures Waiting(l.queue)[1..] == Offered(l)[|l.wire| + 1..]
  {
    var n, rest, q := |l.wire|, l.accepted[|l.wire| + 1..], l.queue[1..];
    forall k | 0 <= k < |rest| ensures Waiting(l.queue)[1..][k] == Offered(l)[n + 1 + k] {
      assert q[k] == Queued(Some(rest[k].message), rest[k].handler);
    }
  }

  /** Whatever happens, what a connection has written is an initial part of what was accepted on
      it; the side that connected starts with its hello, and nobody else says hello. */
  lemma WireOrder(me: Address, events: seq<Event>, s: Peer, a: Address)
    requires Run(Initial(me), events) == Some(s) && a in s.links
    ensures s.links[a].wire <= Offered(s.links[a])
    ensures forall k | 0 <= k < |s.links[a].wire| ::
              s.links[a].wire[k].Some? && (s.links[a].wire[k].value.hello <==> s.links[a].dialled && k == 0)
  {
    hide Run;
    RunSound(me, events);
    LinkOf(s, a);
  }

  /** Handlers are called in the order in which their sends were accepted; success is reported
      only for a message that has been written, and while the connection stands every written
      message's handler has been called with success. */
  lemma CompletionOrder(me: Address, events: seq<Event>, s: Peer, a: Address)
    requires Run(Initial(me), events) == Some(s) && a in s.links
    ensures var l := s.links[a];
            && |l.fired| <= |l.accepted|
            && (forall k | 0 <= k < |l.fired| :: l.fired[k].handler == l.accepted[k].handler)
            && (forall k | 0 <= k < |l.fired| :: l.fired[k].ok ==> k < |l.wire|)
            && (ModeOf(s, a) in {Open, InHandler} ==>
                  |l.fired| == |l.wire| && forall k | 0 <= k < |l.fired| :: l.fired[k].ok)
  {
    hide Run;
    RunSound(me, events);
    LinkOf(s, a);
  }

  /** No user's completion handler is called twice, be it on one connection, on two, or because
      the send was refused; and the queues are never found inconsistent. */
  lemma CompletedAtMostOnce(me: Address, events: seq<Event>, s: Peer)
    requires Run(Initial(me), events) == Some(s)
    ensures !s.inconsistent
    ensures forall a, i, b, j |
              && a in s.links && b in s.links && 0 <= i < |s.links[a].fired| && 0 <= j < |s.links[b].fired|
              && s.links[a].fired[i].handler.User? && s.links[a].fired[i].handler == s.links[b].fired[j].handler ::
              a == b && i == j
    ensures forall a, i, k | a in s.links && 0 <= i < |s.links[a].fired| && 0 <= k < |s.log.refused| ::
              s.links[a].fired[i].handler != User(s.log.refused[k])
    ensures forall j, k | 0 <= j < k < |s.log.refused| :: s.log.refused[j] != s.log.refused[k]
  {
    hide Run;
    RunSound(me, events);
    forall a, i, b, j | a in s.links && b in s.links && 0 <= i < |s.links[a].fired| && 0 <= j < |s.links[b].fired|
      && s.links[a].fired[i].handler.User? && s.links[a].fired[i].handler == s.links[b].fired[j].handler
      ensures a == b && i == j
    {
      FiredIsAccepted(s, a, i);
      FiredIsAccepted(s, b, j);
      assert Sole(s, a, i, b, j);
    }
    forall a, i, k | a in s.links && 0 <= i < |s.links[a].fired| && 0 <= k < |s.log.refused|
      ensures s.links[a].fired[i].handler != User(s.log.refused[k])
    {
      FiredIsAccepted(s, a, i);
      assert Before(s, a, i, k);
    }
  }

  lemma FiredIsAccepted(s: Peer, a: Address, i: nat)
    requires Inv(s) && a in s.links && i < |s.links[a].fired|
    ensures i < |s.links[a].accepted| && s.links[a].fired[i].handler == s.links[a].accepted[i].handler
  {
    LinkOf(s, a);
  }

  // ---- when is every handler called? ----

  /** A send accepted on connection a while its teardown is already calling receive handlers. */
  predicate IsLate(s: Peer, e: Event, a: Address) {
    e.Send? && e.addr == a && !s.stopping && s.strand.Delivering? && s.strand.addr == a
  }

  /** How many late sends a run contains. */
  function LateSends(s0: Peer, events: seq<Event>, a: Address): nat {
    if events == [] then 0
    else
      var n := |events| - 1;
      LateSends(s0, events[..n], a) +
      match Run(s0, events[..n])
      case None => 0
      case Some(s) => if IsLate(s, events[n], a) then 1 else 0
  }

  /** Handlers owed on connection a: none of the accepted sends is missing except late ones. */
  ghost predicate Owed(s: Peer, a: Address, late: nat) {
    && (a !in s.links ==> late == 0)
    && (a in s.links ==>
          match ModeOf(s, a)
          case Ending => |s.links[a].accepted| == |s.links[a].fired| + late
          case Gone => |s.links[a].accepted| == |s.links[a].fired| + late
          case _ => late == 0)
  }

  lemma OwedSend(s: Peer, a: Address, b: Address, data: string, late: nat)
    requires Inv(s) && Owed(s, a, late)
    ensures Owed(DoSend(s, b, data), a, late + if IsLate(s, Send(b, data), a) then 1 else 0)
  {
    hide LinkOk, HandlersOk, RefusedOk, ReceiveOk, Enqueue;
    if b in s.links { EnqueueAccepts(s.links[b], Message(s.me, b, false, data), User(s.sends)); }
  }

  lemma OwedWritten(s: Peer, b: Address, a: Address, late: nat)
    requires Enabled(s, Written(b)) && Owed(s, a, late)
    ensures Owed(DoWritten(s, b), a, late)
  {}

  lemma OwedStrand(s: Peer, e: Event, a: Address, late: nat)
    requires StrandOk(s) && Enabled(s, e) && Owed(s, a, late)
    requires e.Connected? || e.Accepted? || e.Posted? || e.Completed? || e.Failed? || e.FailSend? || e.Erase?
    ensures Owed(Step(s, e), a, late)
  {}

  lemma OwedStep(s: Peer, e: Event, a: Address, late: nat)
    requires Inv(s) && Enabled(s, e) && Owed(s, a, late)
    ensures Owed(Step(s, e), a, late + if IsLate(s, e, a) then 1 else 0)
  {
    hide Inv, Without, DoSend, DoWritten;
    StrandStands(s);
    match e
    case Send(b, data) => OwedSend(s, a, b, data, late);
    case Written(b) => OwedWritten(s, b, a, late);
    case FailReceives => NothingLeft(s);
    case Recv =>
    case Call(_) =>
    case Arrive(_) =>
    case FailReceive =>
    case Stop =>
    case _ => OwedStrand(s, e, a, late);
  }

  lemma StrandStands(s: Peer)
    requires Inv(s)
    ensures StrandOk(s)
  {
    hide LinkOk, HandlersOk, RefusedOk, ReceiveOk;
  }

  lemma NothingLeft(s: Peer)
    requires Inv(s) && Enabled(s, FailReceives)
    ensures |s.links[s.strand.addr].accepted| == |s.links[s.strand.addr].fired|
  {
    LinkOf(s, s.strand.addr);
  }

  lemma {:induction false} OwedRun(me: Address, events: seq<Event>, a: Address)
    requires Run(Initial(me), events).Some?
    ensures Owed(Run(Initial(me), events).value, a, LateSends(Initial(me), events, a))
  {
    hide Inv, Step, IsLate;
    if events == [] {
    } else {
      var init := events[..|events| - 1];
      OwedRun(me, init, a);
      RunSound(me, init);
      OwedStep(Run(Initial(me), init).value, events[|events| - 1], a, LateSends(Initial(me), init, a));
    }
  }

  ghost predicate Called(l: Link, h: Handler) { exists i :: 0 <= i < |l.fired| && l.fired[i].handler == h }

  /** Once a connection has been torn down, every user's handler accepted on it has been called
      if and only if no send was accepted on it after its queue had been drained. The handlers of
      such late sends, the last ones accepted, are never called, and all others are. */
  lemma CompletedExactlyOnce(me: Address, events: seq<Event>, s: Peer, a: Address)
    requires Run(Initial(me), events) == Some(s) && a in s.links && !s.links[a].known
    ensures var l, late := s.links[a], LateSends(Initial(me), events, a);
            && late <= |l.accepted|
            && (forall k | 0 <= k < |l.accepted| && l.accepted[k].handler.User? ::
                  Called(l, l.accepted[k].handler) <==> k < |l.accepted| - late)
            && ((forall k | 0 <= k < |l.accepted| && l.accepted[k].handler.User? :: Called(l, l.accepted[k].handler))
                <==> late == 0)
  {
    hide Run, LateSends, LinkOk;
    RunSound(me, events);
    OwedRun(me, events, a);
    var l, n := s.links[a], |s.links[a].fired|;
    forall k | 0 <= k < |l.accepted| && l.accepted[k].handler.User?
      ensures Called(l, l.accepted[k].handler) <==> k < n
    {
      if k < n {
        FiredIsAccepted(s, a, k);
      } else {
        forall i | 0 <= i < n ensures l.fired[i].handler != l.accepted[k].handler {
          FiredIsAccepted(s, a, i);
          assert Sole(s, a, k, a, i);
        }
      }
    }
    if n < |l.accepted| { LateIsUser(s, a); }
  }

  lemma LateIsUser(s: Peer, a: Address)
    requires Inv(s) && a in s.links && ModeOf(s, a) == Gone && |s.links[a].fired| < |s.links[a].accepted|
    ensures s.links[a].accepted[|s.links[a].fired|].handler.User?
  {
    LinkOf(s, a);
    assert Numbered(s, a);
  }

  /** Such a loss does happen: a receive handler that answers the failure of its connection with
      a send on it. */
  lemma LateSendIsLost(me: Address, a: Address, data: string)
    ensures var events := [Accepted(a), Recv, Failed(a), FailReceives, FailReceive, Send(a, data), Erase];
            && Run(Initial(me), events).Some?
            && var s := Run(Initial(me), events).value;
               a in s.links && !s.links[a].known && s.links[a].fired == [] && |s.links[a].accepted| == 1
  {
    hide Run, Enqueue;
    var s := FailingReceive(me, a);
    var failing := [Accepted(a), Recv, Failed(a), FailReceives, FailReceive];
    EnqueueAccepts(s.links[a], Message(me, a, false, data), User(0));
    RunMore(Initial(me), failing, s, Send(a, data), failing + [Send(a, data)]);
    RunMore(Initial(me), failing + [Send(a, data)], Step(s, Send(a, data)), Erase,
            [Accepted(a), Recv, Failed(a), FailReceives, FailReceive, Send(a, data), Erase]);
  }

  lemma StartsThere(s: Peer)
    ensures Run(s, []) == Some(s)
  {}

  lemma FailingReceive(me: Address, a: Address) returns (s: Peer)
    ensures Run(Initial(me), [Accepted(a), Recv, Failed(a), FailReceives, FailReceive]) == Some(s)
    ensures s.me == me && !s.stopping && !s.locked && s.strand == Delivering(a, []) && s.sends == 0
    ensures a in s.links && s.links[a] == FRESH.(stopped := true)
  {
    hide Run, Step;
    var s0 := Initial(me);
    StartsThere(s0);
    var l := FRESH.(stopped := true);
    var s2 := s0.(links := map[a := FRESH], recvs := 1, log := s0.log.(registered := [0]), toRecv := [0]);
    var s4 := s2.(links := map[a := l], strand := Delivering(a, [0]), toRecv := [], locked := true);
    s := s4.(strand := Delivering(a, []), log := s4.log.Calls(Received(0, None)), locked := false);
    RunMore(s0, [], s0, Accepted(a), [Accepted(a)]);
    Opened(s0, a);
    RunMore(s0, [Accepted(a)], Step(s0, Accepted(a)), Recv, [Accepted(a), Recv]);
    Broken(s2, a);
    RunMore(s0, [Accepted(a), Recv], s2, Failed(a), [Accepted(a), Recv, Failed(a)]);
    RunMore(s0, [Accepted(a), Recv, Failed(a)], Step(s2, Failed(a)), FailReceives,
        [Accepted(a), Recv, Failed(a), FailReceives]);
    Lapsed(s4, a);
    RunMore(s0, [Accepted(a), Recv, Failed(a), FailReceives], s4, FailReceive,
        [Accepted(a), Recv, Failed(a), FailReceives, FailReceive]);
  }

  lemma Opened(s: Peer, a: Address)
    requires exists me :: s == Initial(me)
    ensures Enabled(s, Accepted(a)) && Enabled(Step(s, Accepted(a)), Recv)
    ensures Step(Step(s, Accepted(a)), Recv)
            == s.(links := map[a := FRESH], recvs := 1, log := s.log.(registered := [0]), toRecv := [0])
  {}

  lemma Lapsed(s: Peer, a: Address)
    requires s.strand == Delivering(a, [0])
    ensures Step(s, FailReceive)
            == s.(strand := Delivering(a, []), log := s.log.Calls(Received(0, None)), locked := false)
  {
    assert s.strand.tmp[1..] == [];
  }

  lemma Broken(s: Peer, a: Address)
    requires s.strand.Idle? && s.links == map[a := FRESH] && s.pending == []
    ensures Enabled(s, Failed(a)) && Enabled(Step(s, Failed(a)), FailReceives)
    ensures Step(Step(s, Failed(a)), FailReceives) ==
              s.(links := map[a := FRESH.(stopped := true)], strand := Delivering(a, s.toRecv),
                 toRecv := [], locked := true)
  {
    assert s.links[a := FRESH.(stopped := true)] == map[a := FRESH.(stopped := true)];
  }

  lemma RunMore(s0: Peer, events: seq<Event>, s: Peer, e: Event, events': seq<Event>)
    requires Run(s0, events) == Some(s) && Enabled(s, e) && events' == events + [e]
    ensures Run(s0, events') == Some(Step(s, e))
  {
    hide Enabled, Step;
    assert events'[..|events|] == events;
  }

  // ---- receiving ----

  function Handed(rs: seq<Received>): seq<Message> {
    if rs == [] then []
    else Handed(rs[..|rs| - 1]) + match rs[|rs| - 1].message case None => [] case Some(m) => [m]
  }

  /** The messages that are not addressed to one of these. */
  function Outside(ms: seq<Message>, f: set<Address>): seq<Message> {
    if ms == [] then []
    else Outside(ms[..|ms| - 1], f) + if ms[|ms| - 1].dst in f then [] else [ms[|ms| - 1]]
  }

  /** `p` arises from `q` by leaving elements out. */
  ghost predicate Sub(p: seq<Message>, q: seq<Message>) {
    if p == [] then true
    else if q == [] then false
    else Sub(p, q[..|q| - 1]) || (p[|p| - 1] == q[|q| - 1] && Sub(p[..|p| - 1], q[..|q| - 1]))
  }

  function FailedPeers(events: seq<Event>): set<Address> {
    if events == [] then {}
    else FailedPeers(events[..|events| - 1]) + if events[|events| - 1].Failed? then {events[|events| - 1].addr} else {}
  }

  function Arrivals(events: seq<Event>): seq<Message> {
    if events == [] then []
    else Arrivals(events[..|events| - 1]) + if events[|events| - 1].Arrive? then [events[|events| - 1].message] else []
  }

  lemma OutsideNone(f: set<Address>)
    ensures Outside([], f) == []
  {}

  lemma OutsideSnoc(p: seq<Message>, m: Message, f: set<Address>)
    ensures Outside(p + [m], f) == Outside(p, f) + if m.dst in f then [] else [m]
  {
    assert (p + [m])[..|p|] == p;
  }

  lemma {:induction false} OutsidePlus(p: seq<Message>, q: seq<Message>, f: set<Address>)
    ensures Outside(p + q, f) == Outside(p, f) + Outside(q, f)
  {
    hide Outside;
    if q == [] {
      assert p + q == p;
      OutsideNone(f);
    } else {
      var init, m := q[..|q| - 1], q[|q| - 1];
      OutsidePlus(p, init, f);
      OutsideSnoc(p + init, m, f);
      OutsideSnoc(init, m, f);
      assert p + init + [m] == p + q && init + [m] == q;
    }
  }

  lemma OutsideOne(m: Message, f: set<Address>)
    ensures Outside([m], f) == if m.dst in f then [] else [m]
  {
    assert [m][..0] == [];
  }

  lemma {:induction false} OutsideMore(p: seq<Message>, f: set<Address>, g: set<Address>)
    requires f <= g
    ensures Outside(Outside(p, f), g) == Outside(p, g)
  {
    if p != [] {
      var m := p[|p| - 1];
      OutsideMore(p[..|p| - 1], f, g);
      OutsideOne(m, g);
      OutsidePlus(Outside(p[..|p| - 1], f), [m], g);
      assert m.dst in f ==> Outside(p, f) == Outside(p[..|p| - 1], f);
    }
  }

  lemma {:induction false} OutsideWithout(p: seq<Message>, a: Address, f: set<Address>)
    requires a in f
    ensures Outside(Without(p, a), f) == Outside(p, f)
  {
    if p != [] {
      var m := p[|p| - 1];
      OutsideWithout(p[..|p| - 1], a, f);
      OutsideOne(m, f);
      OutsidePlus(Without(p[..|p| - 1], a), [m], f);
      assert m.dst == a ==> Without(p, a) == Without(p[..|p| - 1], a);
    }
  }

  lemma {:induction false} OutsideShorter(p: seq<Message>, f: set<Address>)
    ensures |Outside(p, f)| <= |p|
    ensures |Outside(p, f)| == |p| ==> Outside(p, f) == p
    ensures (forall i | 0 <= i < |p| :: p[i].dst !in f) ==> Outside(p, f) == p
  {
    if p != [] { OutsideShorter(p[..|p| - 1], f); }
  }

  lemma {:induction false} SubWhole(p: seq<Message>)
    ensures Sub(p, p)
  {
    if p != [] { SubWhole(p[..|p| - 1]); }
  }

  lemma {:induction false} SubTransitive(p: seq<Message>, q: seq<Message>, r: seq<Message>)
    requires Sub(p, q) && Sub(q, r)
    ensures Sub(p, r)
    decreases |p| + |q| + |r|
  {
    if p != [] {
      if Sub(q, r[..|r| - 1]) {
        SubTransitive(p, q, r[..|r| - 1]);
      } else if Sub(p, q[..|q| - 1]) {
        SubTransitive(p, q[..|q| - 1], r[..|r| - 1]);
      } else {
        SubTransitive(p[..|p| - 1], q[..|q| - 1], r[..|r| - 1]);
      }
    }
  }

  lemma {:induction false} SubShorter(p: seq<Message>, q: seq<Message>)
    requires Sub(p, q)
    ensures |p| <= |q|
  {
    if p != [] {
      if Sub(p, q[..|q| - 1]) { SubShorter(p, q[..|q| - 1]); } else { SubShorter(p[..|p| - 1], q[..|q| - 1]); }
    }
  }

  lemma {:induction false} SubWithout(p: seq<Message>, q: seq<Message>, a: Address)
    ensures Sub(p + Without(q, a), p + q)
  {
    if q == [] {
      SubWhole(p);
      assert p + q == p && p + Without(q, a) == p;
    } else {
      var m, init := q[|q| - 1], q[..|q| - 1];
      SubWithout(p, init, a);
      assert (p + q)[..|p + q| - 1] == p + init;
      if m.dst != a {
        assert p + Without(q, a) == p + Without(init, a) + [m];
        assert (p + Without(init, a) + [m])[..|p + Without(init, a)|] == p + Without(init, a);
      } else {
        assert Without(q, a) == Without(init, a);
      }
    }
  }

  lemma SubBoth(p: seq<Message>, q: seq<Message>, m: Message)
    requires Sub(p, q)
    ensures Sub(p + [m], q + [m])
  {
    assert (p + [m])[..|p|] == p && (q + [m])[..|q|] == q;
  }

  /** The messages paired with receive handlers, then the ones waiting for one. */
  function Inbox(s: Peer): seq<Message> { Handed(s.log.paired) + s.pending }

  lemma HandedMore(rs: seq<Received>, r: Received)
    ensures Handed(rs + [r]) == Handed(rs) + match r.message case None => [] case Some(m) => [m]
  {
    assert (rs + [r])[..|rs|] == rs;
  }

  lemma ReceiveSide(s: Peer)
    requires Inv(s)
    ensures s.pending == [] || s.toRecv == []
  {
    hide LinkOk, HandlersOk, RefusedOk, Handlers;
  }

  lemma InboxRecv(s: Peer)
    ensures Inbox(DoRecv(s)) == Inbox(s)
  {
    hide Handed;
    var d := Handed(s.log.paired);
    if !s.stopping && s.pending != [] {
      HandedMore(s.log.paired, Received(s.recvs, Some(s.pending[0])));
      assert d + s.pending == d + [s.pending[0]] + s.pending[1..];
    }
  }

  lemma InboxArrive(s: Peer, m: Message)
    requires s.pending == [] || s.toRecv == []
    ensures Inbox(DoArrive(s, m)) == Inbox(s) + [m]
  {
    hide Handed;
    if s.toRecv != [] { HandedMore(s.log.paired, Received(s.toRecv[0], Some(m))); }
  }

  lemma InboxFailReceive(s: Peer)
    requires Enabled(s, FailReceive)
    ensures Inbox(Step(s, FailReceive)) == Inbox(s)
  {
    hide Handed;
    HandedMore(s.log.paired, Received(s.strand.tmp[0], None));
  }

  /** How one step changes the inbox. */
  lemma InboxStep(s: Peer, e: Event)
    requires Inv(s) && Enabled(s, e)
    ensures var s' := Step(s, e);
            match e
            case Arrive(m) => Inbox(s') == Inbox(s) + [m]
            case FailReceives => Inbox(s') == Handed(s.log.paired) + Without(s.pending, s.strand.addr)
            case _ => Inbox(s') == Inbox(s)
  {
    hide Inv, Without, Handed, DoRecv, DoArrive, Enqueue;
    match e
    case Recv => InboxRecv(s);
    case Arrive(m) => ReceiveSide(s); InboxArrive(Noted(s, m), m);
    case FailReceive => InboxFailReceive(s);
    case _ =>
  }

  function TornDown(s: Peer): set<Address> {
    if s.strand.Draining? || s.strand.Delivering? then {s.strand.addr} else {}
  }

  lemma TearDownStep(s: Peer, e: Event)
    requires Enabled(s, e)
    ensures TornDown(Step(s, e)) <= TornDown(s) + if e.Failed? then {e.addr} else {}
    ensures Step(s, e).log.arrived == if e.Arrive? then s.log.arrived + [e.message] else s.log.arrived
  {
    hide Without, Enqueue;
  }

  lemma InboxArrives(s: Peer, m: Message, arrived: seq<Message>, f: set<Address>)
    requires Inv(s) && s.strand.Idle? && Sub(Inbox(s), arrived) && Outside(Inbox(s), f) == Outside(arrived, f)
    ensures var inbox := Inbox(Step(s, Arrive(m)));
            Sub(inbox, arrived + [m]) && Outside(inbox, f) == Outside(arrived + [m], f)
  {
    hide Inv, Step, Sub, Outside, Inbox;
    InboxStep(s, Arrive(m));
    SubBoth(Inbox(s), arrived, m);
    OutsidePlus(Inbox(s), [m], f);
    OutsidePlus(arrived, [m], f);
  }

  lemma InboxFiltered(s: Peer, arrived: seq<Message>, f: set<Address>)
    requires Inv(s) && Enabled(s, FailReceives) && s.strand.addr in f
    requires Sub(Inbox(s), arrived) && Outside(Inbox(s), f) == Outside(arrived, f)
    ensures var inbox := Inbox(Step(s, FailReceives));
            Sub(inbox, arrived) && Outside(inbox, f) == Outside(arrived, f)
  {
    hide Inv, Step, Sub, Outside, Handed, Without;
    InboxStep(s, FailReceives);
    var d, a := Handed(s.log.paired), s.strand.addr;
    SubWithout(d, s.pending, a);
    SubTransitive(d + Without(s.pending, a), d + s.pending, arrived);
    OutsidePlus(d, Without(s.pending, a), f);
    OutsidePlus(d, s.pending, f);
    OutsideWithout(s.pending, a, f);
  }

  lemma {:induction false} InboxRun(me: Address, events: seq<Event>)
    requires Run(Initial(me), events).Some?
    ensures var s, f := Run(Initial(me), events).value, FailedPeers(events);
            TornDown(s) <= f && s.log.arrived == Arrivals(events)
            && Sub(Inbox(s), s.log.arrived) && Outside(Inbox(s), f) == Outside(s.log.arrived, f)
  {
    hide Inv, Step, Sub, Outside, Inbox, TornDown;
    if events == [] {
      InboxEmpty(me);
    } else {
      var init, e := events[..|events| - 1], events[|events| - 1];
      var s, f, g := Run(Initial(me), init).value, FailedPeers(init), FailedPeers(events);
      InboxRun(me, init);
      RunSound(me, init);
      TearDownStep(s, e);
      InboxStep(s, e);
      if e.Arrive? {
        InboxArrives(s, e.message, s.log.arrived, f);
      } else if e.FailReceives? {
        TornDownOne(s);
        InboxFiltered(s, s.log.arrived, f);
      }
      assert !e.Failed? ==> g == f;
      OutsideMore(Inbox(s), f, g);
      OutsideMore(s.log.arrived, f, g);
    }
  }

  lemma InboxEmpty(me: Address)
    ensures Inbox(Initial(me)) == [] && TornDown(Initial(me)) == {} && Sub([], [])
  {}

  lemma TornDownOne(s: Peer)
    requires s.strand.Draining?
    ensures s.strand.addr in TornDown(s)
  {}

  /** Over every run, messages are paired with receive handlers in the order of their arrival and
      each at most once. Only messages addressed to a peer whose connection failed can go missing:
      apart from those, the paired and the waiting messages are exactly the arrived ones. */
  lemma ArrivalOrder(me: Address, events: seq<Event>, s: Peer)
    requires Run(Initial(me), events) == Some(s)
    ensures Sub(Handed(s.log.paired) + s.pending, Arrivals(events))
    ensures Outside(Handed(s.log.paired) + s.pending, FailedPeers(events))
            == Outside(Arrivals(events), FailedPeers(events))
    ensures (forall k | 0 <= k < |Arrivals(events)| :: Arrivals(events)[k].dst !in FailedPeers(events)) ==>
              Handed(s.log.paired) + s.pending == Arrivals(events)
  {
    hide Run, Sub, Outside, FailedPeers, Arrivals, Handed;
    InboxRun(me, events);
    SubShorter(Inbox(s), Arrivals(events));
    OutsideShorter(Inbox(s), FailedPeers(events));
    OutsideShorter(Arrivals(events), FailedPeers(events));
  }

  lemma {:induction false} WithoutExactly(ms: seq<Message>, a: Address, m: Message)
    ensures multiset(Without(ms, a))[m] == if m.dst == a then 0 else multiset(ms)[m]
  {
    if ms != [] {
      WithoutExactly(ms[..|ms| - 1], a, m);
      assert ms == ms[..|ms| - 1] + [ms[|ms| - 1]];
    }
  }

  /** When the teardown of a connection comes to the receiving side, the waiting messages addressed
      to its peer are dropped, all of them and no others, and the rest stay in order. */
  lemma TeardownDrops(me: Address, events: seq<Event>, s: Peer, s': Peer)
    requires Run(Initial(me), events) == Some(s) && Run(Initial(me), events + [FailReceives]) == Some(s')
    ensures s.strand.Draining? && Sub(s'.pending, s.pending)
    ensures forall m: Message ::
              multiset(s'.pending)[m] == if m.dst == s.strand.addr then 0 else multiset(s.pending)[m]
  {
    hide Sub, Without;
    assert (events + [FailReceives])[..|events|] == events;
    SubWithout([], s.pending, s.strand.addr);
    assert [] + s'.pending == s'.pending && [] + s.pending == s.pending;
    forall m: Message
      ensures multiset(s'.pending)[m] == if m.dst == s.strand.addr then 0 else multiset(s.pending)[m]
    {
      WithoutExactly(s.pending, s.strand.addr, m);
    }
  }

  /** Receive handlers are paired in the order in which they were registered, each at most once, and
      those turned away while stopping come after all others; waiting messages and waiting handlers
      never coexist. */
  lemma ReceiveOrder(me: Address, events: seq<Event>, s: Peer)
    requires Run(Initial(me), events) == Some(s)
    ensures s.pending == [] || s.toRecv == []
    ensures Handlers(s.log.paired) + Tmp(s) + s.toRecv == s.log.registered
    ensures Rising(s.log.registered + s.log.turnedAway) && |s.log.registered| + |s.log.turnedAway| == s.recvs
  {
    hide Run;
    RunSound(me, events);
    AllReceives(me, events);
  }

  predicate Rising(ids: seq<nat>) { forall j, k | 0 <= j < k < |ids| :: ids[j] < ids[k] }

  /** Every call of async_recv is either registered or turned away, and the latter come last. */
  ghost predicate Numbering(s: Peer) {
    && (!s.stopping ==> s.log.turnedAway == [])
    && |s.log.registered| + |s.log.turnedAway| == s.recvs
    && Rising(s.log.registered + s.log.turnedAway)
    && forall k | 0 <= k < |s.log.registered + s.log.turnedAway| :: (s.log.registered + s.log.turnedAway)[k] < s.recvs
  }

  lemma {:induction false} AllReceives(me: Address, events: seq<Event>)
    requires Run(Initial(me), events).Some?
    ensures Numbering(Run(Initial(me), events).value)
  {
    hide Step, Numbering;
    if events == [] {
      NoneNumbered(me);
    } else {
      AllReceives(me, events[..|events| - 1]);
      NumberingStep(Run(Initial(me), events[..|events| - 1]).value, events[|events| - 1]);
    }
  }

  lemma NoneNumbered(me: Address)
    ensures Numbering(Initial(me))
  {}

  lemma NumberingStep(s: Peer, e: Event)
    requires Enabled(s, e) && Numbering(s)
    ensures Numbering(Step(s, e))
  {
    hide Without, Enqueue, Rising;
    if e.Recv? {
      NumberingRecv(s);
    } else {
      SameNumbers(s, e);
    }
  }

  lemma SameNumbers(s: Peer, e: Event)
    requires Enabled(s, e) && !e.Recv?
    ensures var s' := Step(s, e);
            && s'.log.registered == s.log.registered && s'.log.turnedAway == s.log.turnedAway && s'.recvs == s.recvs
            && (s.stopping ==> s'.stopping)
  {
    hide Without, Enqueue;
  }

  lemma NumberingRecv(s: Peer)
    requires Numbering(s)
    ensures Numbering(DoRecv(s))
  {
    var ids := s.log.registered + s.log.turnedAway;
    if s.stopping {
      assert s.log.registered + (s.log.turnedAway + [s.recvs]) == ids + [s.recvs];
    } else {
      assert s.log.registered + [s.recvs] + s.log.turnedAway == ids + [s.recvs];
    }
  }
}
