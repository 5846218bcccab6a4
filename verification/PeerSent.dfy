/** What a peer sends, read from the events of a run alone: the messages and completion handlers
    accepted on each connection, and the sends it refuses. */
module PeerSent {
  import opened Wrappers
  import opened PeerQueues
  import opened PeerRuns

  /** What an observer of the events knows: the connections that stand, the one being torn down,
      whether the peer is stopping, and how often async_send was called. */
  datatype Watch = Watch(open: set<Address>, failing: Option<Address>, stopped: bool, sends: nat)

  function Seen(w: Watch, e: Event): Watch {
    match e
    case Connected(a) => w.(open := w.open + {a})
    case Accepted(a) => w.(open := w.open + {a})
    case Failed(a) => if a in w.open then w.(failing := Some(a)) else w
    case Erase => if w.failing.Some? then w.(open := w.open - {w.failing.value}, failing := None) else w
    case Stop => w.(stopped := true)
    case Send(_, _) => w.(sends := w.sends + 1)
    case _ => w
  }

  function Watching(events: seq<Event>): Watch {
    if events == [] then Watch({}, None, false, 0)
    else Seen(Watching(events[..|events| - 1]), events[|events| - 1])
  }

  /** What an event puts on the connection to `a`: the hello of the side that connects, with no
      data, and the data of a send while the connection stands and the peer is not stopping. */
  function Puts(me: Address, w: Watch, e: Event, a: Address): seq<Entry> {
    match e
    case Connected(b) => if b == a then [Entry(Message(me, a, true, ""), NoOp)] else []
    case Send(b, data) =>
      if b == a && a in w.open && !w.stopped then [Entry(Message(me, a, false, data), User(w.sends))] else []
    case _ => []
  }

  function Outgoing(me: Address, events: seq<Event>, a: Address): seq<Entry> {
    if events == [] then []
    else
      var n := |events| - 1;
      Outgoing(me, events[..n], a) + Puts(me, Watching(events[..n]), events[n], a)
  }

  /** The numbers of the sends made while the peer is stopping. */
  function Refusals(events: seq<Event>): seq<nat> {
    if events == [] then []
    else
      var n := |events| - 1;
      var w := Watching(events[..n]);
      Refusals(events[..n]) + if events[n].Send? && w.stopped then [w.sends] else []
  }

  // ---- the observer is right ----

  function TearingDown(s: Strand): Option<Address> {
    match s
    case Draining(a) => Some(a)
    case Delivering(a, _) => Some(a)
    case _ => None
  }

  predicate Stands(s: Peer, a: Address) { a in s.links && s.links[a].known }

  ghost predicate Matches(s: Peer, w: Watch) {
    && s.stopping == w.stopped && s.sends == w.sends && TearingDown(s.strand) == w.failing
    && forall a :: a in w.open <==> Stands(s, a)
  }

  lemma EnqueueStands(l: Link, m: Message, h: Handler)
    ensures Enqueue(l, m, h).known == l.known && Enqueue(l, m, h).accepted == l.accepted + [Entry(m, h)]
  {}

  lemma SendMatches(s: Peer, b: Address, data: string, w: Watch)
    requires Matches(s, w)
    ensures Matches(DoSend(s, b, data), Seen(w, Send(b, data)))
  {
    hide Enqueue;
    if b in s.links { EnqueueStands(s.links[b], Message(s.me, b, false, data), User(s.sends)); }
    var s' := DoSend(s, b, data);
    forall a ensures a in w.open <==> Stands(s', a) { assert a in w.open <==> Stands(s, a); }
  }

  lemma OpenMatches(s: Peer, e: Event, w: Watch)
    requires Enabled(s, e) && Matches(s, w) && (e.Connected? || e.Accepted?)
    ensures Matches(Step(s, e), Seen(w, e))
  {
    hide SayHello;
    if e.Connected? { HelloStands(Message(s.me, e.addr, true, "")); }
    var s', w' := Step(s, e), Seen(w, e);
    forall a ensures a in w'.open <==> Stands(s', a) { assert a in w.open <==> Stands(s, a); }
  }

  lemma HelloStands(m: Message)
    ensures SayHello(FRESH, m).known && FRESH.known
  {}

  lemma TeardownMatches(s: Peer, e: Event, w: Watch)
    requires Enabled(s, e) && Matches(s, w) && (e.Failed? || e.Erase?)
    ensures Matches(Step(s, e), Seen(w, e))
  {
    var s', w' := Step(s, e), Seen(w, e);
    forall a ensures a in w'.open <==> Stands(s', a) { assert a in w.open <==> Stands(s, a); }
    if e.Failed? { assert e.addr in w.open <==> Stands(s, e.addr); }
  }

  lemma LinkStepMatches(s: Peer, e: Event, w: Watch)
    requires Enabled(s, e) && Matches(s, w) && (e.Posted? || e.Written? || e.Completed? || e.FailSend?)
    ensures Matches(Step(s, e), w)
  {
    hide Enabled, Step;
    FieldsStay(s, e);
    var s' := Step(s, e);
    forall a ensures a in w.open <==> Stands(s', a) {
      assert a in w.open <==> Stands(s, a);
      LinkStays(s, e, a);
    }
  }

  lemma LinkStays(s: Peer, e: Event, a: Address)
    requires Enabled(s, e) && (e.Posted? || e.Written? || e.Completed? || e.FailSend?)
    ensures Stands(Step(s, e), a) <==> Stands(s, a)
  {}

  lemma FieldsStay(s: Peer, e: Event)
    requires Enabled(s, e) && (e.Posted? || e.Written? || e.Completed? || e.FailSend?)
    ensures var s' := Step(s, e);
            s'.stopping == s.stopping && s'.sends == s.sends && TearingDown(s'.strand) == TearingDown(s.strand)
  {
    hide RunPosted, TakeWritten, Fire, AfterHandler, Pop;
  }

  lemma StepMatches(s: Peer, e: Event, w: Watch)
    requires Enabled(s, e) && Matches(s, w)
    ensures Matches(Step(s, e), Seen(w, e))
  {
    hide DoSend, Without;
    match e
    case Send(b, data) => SendMatches(s, b, data, w);
    case Connected(_) => OpenMatches(s, e, w);
    case Accepted(_) => OpenMatches(s, e, w);
    case Failed(_) => TeardownMatches(s, e, w);
    case Erase => TeardownMatches(s, e, w);
    case Recv => SameLinks(s, Step(s, e), w);
    case Call(_) => SameLinks(s, Step(s, e), w);
    case Arrive(_) => SameLinks(s, Step(s, e), w);
    case FailReceives => SameLinks(s, Step(s, e), w);
    case FailReceive => SameLinks(s, Step(s, e), w);
    case Stop => SameLinks(s.(stopping := true), Step(s, e), w.(stopped := true));
    case _ => LinkStepMatches(s, e, w);
  }

  lemma SameLinks(s: Peer, s': Peer, w: Watch)
    requires s'.links == s.links && s'.sends == s.sends && s'.stopping == s.stopping == w.stopped && s.sends == w.sends
    requires TearingDown(s'.strand) == TearingDown(s.strand) == w.failing && forall a :: a in w.open <==> Stands(s, a)
    ensures Matches(s', w)
  {
    forall a ensures a in w.open <==> Stands(s', a) { assert a in w.open <==> Stands(s, a); }
  }

  // ---- what a step accepts ----

  lemma SendPuts(s: Peer, b: Address, data: string, w: Watch, a: Address)
    requires Matches(s, w)
    ensures var s' := DoSend(s, b, data);
            && AcceptedBy(s', a) == AcceptedBy(s, a) + Puts(s.me, w, Send(b, data), a)
            && s'.log.refused == s.log.refused + (if w.stopped then [w.sends] else []) && s'.me == s.me
  {
    hide Enqueue;
    assert a in w.open <==> Stands(s, a);
    if b in s.links { EnqueueStands(s.links[b], Message(s.me, b, false, data), User(s.sends)); }
  }

  lemma OpenPuts(s: Peer, e: Event, w: Watch, a: Address)
    requires Enabled(s, e) && (e.Connected? || e.Accepted?)
    ensures AcceptedBy(Step(s, e), a) == AcceptedBy(s, a) + Puts(s.me, w, e, a)
  {
    hide SayHello;
    if e.Connected? { HelloAccepted(Message(s.me, e.addr, true, "")); }
  }

  lemma LinkStepPuts(s: Peer, e: Event, a: Address)
    requires Enabled(s, e) && (e.Posted? || e.Written? || e.Completed? || e.Failed? || e.FailSend? || e.Erase?)
    ensures AcceptedBy(Step(s, e), a) == AcceptedBy(s, a)
  {}

  lemma OthersPut(s: Peer, e: Event, w: Watch, a: Address)
    requires Enabled(s, e) && !e.Send?
    ensures AcceptedBy(Step(s, e), a) == AcceptedBy(s, a) + Puts(s.me, w, e, a)
  {
    hide AcceptedBy, Without, SayHello, RunPosted, DoWritten, DoComplete, DoFail, DoFailSend, DoErase;
    match e
    case Connected(_) => OpenPuts(s, e, w, a);
    case Accepted(_) => OpenPuts(s, e, w, a);
    case Recv => SameAccepted(s, Step(s, e), a);
    case Call(_) => SameAccepted(s, Step(s, e), a);
    case Arrive(_) => SameAccepted(s, Step(s, e), a);
    case FailReceives => SameAccepted(s, Step(s, e), a);
    case FailReceive => SameAccepted(s, Step(s, e), a);
    case Stop => SameAccepted(s, Step(s, e), a);
    case _ => LinkStepPuts(s, e, a);
  }

  lemma SameAccepted(s: Peer, s': Peer, a: Address)
    requires s'.links == s.links
    ensures AcceptedBy(s', a) == AcceptedBy(s, a)
  {}

  lemma NothingRefused(s: Peer, e: Event)
    requires Enabled(s, e) && !e.Send?
    ensures Step(s, e).log.refused == s.log.refused && Step(s, e).me == s.me
  {
    hide Without, SayHello, RunPosted, AfterHandler;
  }

  lemma HelloAccepted(m: Message)
    ensures SayHello(FRESH, m).accepted == [Entry(m, NoOp)]
  {}

  lemma {:induction false} SentRun(me: Address, events: seq<Event>, a: Address)
    requires Run(Initial(me), events).Some?
    ensures var s := Run(Initial(me), events).value;
            && s.me == me && Matches(s, Watching(events))
            && AcceptedBy(s, a) == Outgoing(me, events, a) && s.log.refused == Refusals(events)
  {
    hide Step, Matches, Enabled, Puts, AcceptedBy;
    if events == [] {
      NothingSent(me, a);
    } else {
      var init, e := events[..|events| - 1], events[|events| - 1];
      SentRun(me, init, a);
      var s, w := Run(Initial(me), init).value, Watching(init);
      StepMatches(s, e, w);
      OnePuts(s, e, w, a);
    }
  }

  lemma OnePuts(s: Peer, e: Event, w: Watch, a: Address)
    requires Enabled(s, e) && Matches(s, w)
    ensures var s' := Step(s, e);
            && s'.me == s.me && AcceptedBy(s', a) == AcceptedBy(s, a) + Puts(s.me, w, e, a)
            && s'.log.refused == s.log.refused + if e.Send? && w.stopped then [w.sends] else []
  {
    hide AcceptedBy, Puts, Matches, DoSend;
    if e.Send? { SendPuts(s, e.addr, e.data, w, a); } else { OthersPut(s, e, w, a); NothingRefused(s, e); }
  }

  lemma NothingSent(me: Address, a: Address)
    ensures var s := Initial(me);
            && s.me == me && Matches(s, Watching([])) && s.log.refused == []
            && AcceptedBy(s, a) == [] == Outgoing(me, [], a)
  {
    forall b ensures !Stands(Initial(me), b) {}
  }

  /** Over every run, what was accepted on the connection to `a` is what the events put there: from
      this peer to `a`, the hello first and empty if this side connected, then the data of the sends
      made while the connection stood and the peer was not stopping, each with its own handler. What
      was written is an initial part of exactly these messages, and the sends made while stopping are
      the ones refused. */
  lemma SentAsGiven(me: Address, events: seq<Event>, s: Peer, a: Address)
    requires Run(Initial(me), events) == Some(s)
    ensures AcceptedBy(s, a) == Outgoing(me, events, a) && s.log.refused == Refusals(events)
    ensures a in s.links ==>
              && |s.links[a].wire| <= |Outgoing(me, events, a)|
              && forall k | 0 <= k < |s.links[a].wire| ::
                   s.links[a].wire[k] == Some(Outgoing(me, events, a)[k].message)
  {
    hide Run, Outgoing, Refusals, Watching, Matches;
    SentRun(me, events, a);
    if a in s.links { WireOrder(me, events, s, a); }
  }

  /** Every message put on a connection goes from this peer to the other side. */
  lemma {:induction false} OutgoingFromTo(me: Address, events: seq<Event>, a: Address)
    ensures forall k | 0 <= k < |Outgoing(me, events, a)| ::
              Outgoing(me, events, a)[k].message.src == me && Outgoing(me, events, a)[k].message.dst == a
    ensures forall k | 0 <= k < |Outgoing(me, events, a)| && Outgoing(me, events, a)[k].message.hello ::
              Outgoing(me, events, a)[k].message.data == ""
  {
    if events != [] { OutgoingFromTo(me, events[..|events| - 1], a); }
  }
}
