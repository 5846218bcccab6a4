/** src/fhgcom/peer.cpp and src/fhgcom/connection.cpp as a transition system. A step is one
    section that runs under the peer's mutex or on its strand, or a call of a handler that
    async_recv makes after giving up the mutex. The user's calls may fall between
    any two steps at which the mutex is free or held by a running handler, so also inside the
    handlers called while a connection is torn down. */
module PeerQueues {
  import opened Wrappers

  datatype Address = Address(name: string)

  datatype Message = Message(src: Address, dst: Address, hello: bool, data: string)

  /** The hello packet's handler does nothing; the others are the user's, numbered by call. */
  datatype Handler = NoOp | User(id: nat)

  /** to_send_t of the peer: the message is moved out when its transfer starts. */
  datatype Queued = Queued(message: Option<Message>, handler: Handler)

  datatype Entry = Entry(message: Message, handler: Handler)

  datatype Completion = Completion(handler: Handler, ok: bool)

  /** connection_data_t together with its connection_t. */
  datatype Link = Link(
    known: bool,                     // has an entry in connections_
    dialled: bool,                   // this side connected and says hello
    queue: seq<Queued>,              // o_queue
    inProgress: bool,                // send_in_progress
    posted: seq<Option<Message>>,    // handed to the strand by connection_t::async_send
    toSend: seq<Option<Message>>,    // to_send_; the front is being written
    live: bool,                      // ... and its write was started before the stop
    stopped: bool,
    wire: seq<Option<Message>>,      // written, in order
    accepted: seq<Entry>,            // history: what was put into o_queue, in order
    fired: seq<Completion>)          // history: the handlers called, in order

  datatype Strand =
    | Idle
    | Completing(addr: Address)                    // in handle_send, the handler is running
    | Draining(addr: Address)                      // in handle_error, failing the queued sends
    | Delivering(addr: Address, tmp: seq<nat>)     // in handle_error, failing the receives

  datatype Received = Received(handler: nat, message: Option<Message>)

  /** What has happened so far, as an observer would note it. */
  datatype Log = Log(
    refused: seq<nat>,               // send handlers called with network_down
    registered: seq<nat>,            // receive handlers accepted, in order
    paired: seq<Received>,           // receive handlers with what they got, in the order of pairing
    uncalled: seq<Received>,         // ... of these, the ones whose call is still to come
    called: seq<Received>,           // ... and the ones called, in the order of the calls
    turnedAway: seq<nat>,            // receive handlers called with network_down
    arrived: seq<Message>)
  {
    function Registers(handler: nat): Log { this.(registered := registered + [handler]) }

    /** A handler is paired by async_recv, which calls it after giving up the mutex. */
    function Pairs(r: Received): Log { this.(paired := paired + [r], uncalled := uncalled + [r]) }

    /** A handler is paired and called by the strand. Nothing can be paired in between: no message
        waits, and none arrives while the strand is busy. */
    function Calls(r: Received): Log { this.(paired := paired + [r], called := called + [r]) }

    function CallsLater(k: nat): Log
      requires k < |uncalled|
    {
      this.(uncalled := uncalled[..k] + uncalled[k + 1..], called := called + [uncalled[k]])
    }
  }

  datatype Peer = Peer(
    me: Address,
    stopping: bool,
    links: map<Address, Link>,
    strand: Strand,
    locked: bool,                    // the strand holds the mutex and is not in a user's handler
    toRecv: seq<nat>,                // m_to_recv
    pending: seq<Message>,           // m_pending
    sends: nat,                      // number of calls of async_send
    recvs: nat,                      // number of calls of async_recv
    log: Log,
    inconsistent: bool)              // "inconsistent output queue" has been thrown

  datatype Event =
    | Connected(addr: Address)
    | Accepted(addr: Address)
    | Send(addr: Address, data: string)
    | Recv
    | Call(index: nat)
    | Posted(addr: Address)
    | Written(addr: Address)
    | Completed
    | Failed(addr: Address)
    | FailSend
    | FailReceives
    | FailReceive
    | Erase
    | Arrive(message: Message)
    | Stop

  // ---- the pieces of a step ----

  const FRESH := Link(true, false, [], false, [], [], false, false, [], [], [])

  function Hello(me: Address, addr: Address): Message { Message(me, addr, true, "") }

  /** start_sender */
  function StartSender(l: Link): Link {
    if l.inProgress || l.queue == [] then l
    else Launch(l.(inProgress := true))
  }

  /** The front's message is moved out and handed to the connection. */
  function Launch(l: Link): Link
    requires l.queue != []
  {
    l.(posted := l.posted + [l.queue[0].message], queue := [l.queue[0].(message := None)] + l.queue[1..])
  }

  function PushBack(l: Link, m: Message, h: Handler): Link {
    l.(queue := l.queue + [Queued(Some(m), h)], accepted := l.accepted + [Entry(m, h)])
  }

  /** connection_established */
  function SayHello(l: Link, m: Message): Link {
    StartSender(l.(dialled := true, queue := [Queued(Some(m), NoOp)] + l.queue,
                   accepted := [Entry(m, NoOp)] + l.accepted))
  }

  /** async_send on a known connection */
  function Enqueue(l: Link, m: Message, h: Handler): Link {
    var l' := PushBack(l, m, h);
    if |l'.queue| == 1 then StartSender(l') else l'
  }

  /** What connection_t::async_send posts to the strand. */
  function RunPosted(l: Link): Link
    requires l.posted != []
  {
    l.(posted := l.posted[1..], toSend := l.toSend + [l.posted[0]],
       live := if l.toSend == [] then !l.stopped else l.live)
  }

  /** handle_write, up to the call of the handler */
  function TakeWritten(l: Link): Link
    requires l.toSend != []
  {
    l.(toSend := l.toSend[1..], wire := l.wire + [l.toSend[0]], live := !l.stopped)
  }

  function Fire(l: Link, ok: bool): Link
    requires l.queue != []
  {
    l.(fired := l.fired + [Completion(l.queue[0].handler, ok)])
  }

  function Pop(l: Link): Link
    requires l.queue != []
  {
    l.(queue := l.queue[1..])
  }

  /** handle_send after the handler has returned */
  function AfterHandler(l: Link): Link
    requires l.queue != []
  {
    var l' := Pop(l);
    if l'.queue != [] then Launch(l') else l'.(inProgress := false)
  }

  /** m_pending.remove_if */
  function Without(ms: seq<Message>, dst: Address): seq<Message> {
    if ms == [] then []
    else Without(ms[..|ms| - 1], dst) + if ms[|ms| - 1].dst == dst then [] else [ms[|ms| - 1]]
  }

  // ---- steps ----

  predicate Enabled(s: Peer, e: Event) {
    match e
    case Connected(a) => s.strand.Idle? && a !in s.links
    case Accepted(a) => s.strand.Idle? && a !in s.links
    case Send(_, _) => !s.locked
    case Recv => !s.locked
    case Call(k) => k < |s.log.uncalled|
    case Posted(a) => s.strand.Idle? && a in s.links && s.links[a].posted != []
    case Written(a) => s.strand.Idle? && a in s.links && s.links[a].toSend != [] && s.links[a].live
    case Completed => s.strand.Completing? && s.strand.addr in s.links && s.links[s.strand.addr].queue != []
    case Failed(a) => s.strand.Idle? && a in s.links
    case FailSend => s.strand.Draining? && s.strand.addr in s.links && s.links[s.strand.addr].queue != []
    case FailReceives => s.strand.Draining? && s.strand.addr in s.links && s.links[s.strand.addr].queue == []
    case FailReceive => s.strand.Delivering? && s.strand.tmp != []
    case Erase => s.strand.Delivering? && s.strand.tmp == [] && s.strand.addr in s.links
    case Arrive(_) => s.strand.Idle?
    case Stop => !s.locked
  }

  function Step(s: Peer, e: Event): Peer
    requires Enabled(s, e)
  {
    match e
    case Connected(a) => s.(links := s.links[a := SayHello(FRESH, Hello(s.me, a))])
    case Accepted(a) => s.(links := s.links[a := FRESH])
    case Send(a, data) => DoSend(s, a, data)
    case Recv => DoRecv(s)
    case Call(k) => s.(log := s.log.CallsLater(k))
    case Posted(a) => s.(links := s.links[a := RunPosted(s.links[a])])
    case Written(a) => DoWritten(s, a)
    case Completed => DoComplete(s)
    case Failed(a) => DoFail(s, a)
    case FailSend => DoFailSend(s)
    case FailReceives => DoFailReceives(s)
    case FailReceive => DoFailReceive(s)
    case Erase => DoErase(s)
    case Arrive(m) => DoArrive(Noted(s, m), m)
    case Stop => s.(stopping := true)
  }

  /** handle_send after the user's handler */
  function DoComplete(s: Peer): Peer
    requires Enabled(s, Completed)
  {
    s.(links := s.links[s.strand.addr := AfterHandler(s.links[s.strand.addr])], strand := Idle)
  }

  // peer_t::handle_error, from its start to the removal of the connection's entry

  function DoFail(s: Peer, a: Address): Peer
    requires Enabled(s, Failed(a))
  {
    if !s.links[a].known then s
    else
      var l := s.links[a].(stopped := true, inProgress := false);
      s.(links := s.links[a := l], strand := Draining(a), locked := true)
  }

  function DoFailSend(s: Peer): Peer
    requires Enabled(s, FailSend)
  {
    s.(links := s.links[s.strand.addr := Pop(Fire(s.links[s.strand.addr], false))], locked := false)
  }

  function DoFailReceives(s: Peer): Peer
    requires Enabled(s, FailReceives)
  {
    var a := s.strand.addr;
    s.(pending := Without(s.pending, a), strand := Delivering(a, s.toRecv), toRecv := [], locked := true)
  }

  function DoFailReceive(s: Peer): Peer
    requires Enabled(s, FailReceive)
  {
    s.(log := s.log.Calls(Received(s.strand.tmp[0], None)),
       strand := s.strand.(tmp := s.strand.tmp[1..]), locked := false)
  }

  function DoErase(s: Peer): Peer
    requires Enabled(s, Erase)
  {
    var l := s.links[s.strand.addr].(known := false, queue := []);
    s.(links := s.links[s.strand.addr := l], strand := Idle, locked := false)
  }

  /** peer_t::async_send; an unknown address makes connections_.at throw. */
  function DoSend(s: Peer, a: Address, data: string): Peer {
    var s' := s.(sends := s.sends + 1);
    if s.stopping then s'.(log := s.log.(refused := s.log.refused + [s.sends]))
    else if a !in s.links || !s.links[a].known then s'
    else s'.(links := s.links[a := Enqueue(s.links[a], Message(s.me, a, false, data), User(s.sends))])
  }

  /** peer_t::async_recv, as far as it holds the mutex; the call of a paired handler follows. */
  function DoRecv(s: Peer): Peer {
    var s' := s.(recvs := s.recvs + 1);
    if s.stopping then s'.(log := s.log.(turnedAway := s.log.turnedAway + [s.recvs]))
    else if s.pending == [] then s'.(log := s.log.Registers(s.recvs), toRecv := s.toRecv + [s.recvs])
    else
      s'.(log := s.log.Registers(s.recvs).Pairs(Received(s.recvs, Some(s.pending[0]))), pending := s.pending[1..])
  }

  /** handle_write and the handle_send it calls, up to the user's handler */
  function DoWritten(s: Peer, a: Address): Peer
    requires a in s.links && s.links[a].toSend != []
  {
    var l := TakeWritten(s.links[a]);
    if !l.known then s.(links := s.links[a := l])
    else if l.queue == [] then s.(links := s.links[a := l], inconsistent := s.inconsistent || l.inProgress)
    else s.(links := s.links[a := Fire(l, true)], strand := Completing(a))
  }

  function Noted(s: Peer, m: Message): Peer { s.(log := s.log.(arrived := s.log.arrived + [m])) }

  /** peer_t::handle_user_data */
  function DoArrive(s: Peer, m: Message): Peer {
    if s.toRecv == [] then s.(pending := s.pending + [m])
    else s.(toRecv := s.toRecv[1..], log := s.log.Calls(Received(s.toRecv[0], Some(m))))
  }

  function Initial(me: Address): Peer {
    Peer(me, false, map[], Idle, false, [], [], 0, 0, Log([], [], [], [], [], [], []), false)
  }

  /** The state after these events, if they can happen in this order. */
  function Run(s0: Peer, events: seq<Event>): Option<Peer> {
    if events == [] then Some(s0)
    else
      var n := |events| - 1;
      match Run(s0, events[..n])
      case None => None
      case Some(s) => if Enabled(s, events[n]) then Some(Step(s, events[n])) else None
  }

  // ---- what every step keeps: one connection ----

  datatype Mode = Open | InHandler | Failing | Ending | Gone

  function ModeOf(s: Peer, a: Address): Mode
    requires a in s.links
  {
    if !s.links[a].known then Gone
    else if s.strand.Idle? || s.strand.addr != a then Open
    else if s.strand.Completing? then InHandler
    else if s.strand.Draining? then Failing
    else Ending
  }

  ghost predicate QueueShows(queue: seq<Queued>, entries: seq<Entry>) {
    |queue| == |entries| && forall k | 0 <= k < |queue| :: queue[k].handler == entries[k].handler
  }

  /** No entry's message has been moved out. */
  ghost predicate Unsent(queue: seq<Queued>, entries: seq<Entry>) {
    && |queue| == |entries|
    && forall k | 0 <= k < |queue| :: queue[k] == Queued(Some(entries[k].message), entries[k].handler)
  }

  /** Messages leave in the order of acceptance, handlers are called in the order of acceptance,
      and success is reported only for messages that were written. */
  ghost predicate Ordered(l: Link) {
    && |l.wire| <= |l.accepted|
    && (forall k | 0 <= k < |l.wire| :: l.wire[k] == Some(l.accepted[k].message))
    && |l.fired| <= |l.accepted|
    && (forall k | 0 <= k < |l.fired| :: l.fired[k].handler == l.accepted[k].handler)
    && (forall k | 0 <= k < |l.fired| :: l.fired[k].ok ==> k < |l.wire|)
    && (forall k | 0 <= k < |l.accepted| :: l.accepted[k].message.hello <==> l.dialled && k == 0)
    && (l.dialled ==> l.accepted != [])
    && (l.live && l.toSend != [] ==> |l.wire| < |l.accepted| && l.toSend[0] == Some(l.accepted[|l.wire|].message))
  }

  ghost predicate LinkOk(l: Link, mode: Mode) {
    && Ordered(l)
    && match mode
       case Open =>
         && !l.stopped && |l.wire| == |l.fired| && (l.toSend != [] ==> l.live)
         && (forall k | 0 <= k < |l.fired| :: l.fired[k].ok)
         && (l.inProgress <==> l.queue != [])
         && (if l.queue == [] then l.posted + l.toSend == [] && |l.accepted| == |l.fired|
             else
               && |l.fired| < |l.accepted|
               && l.posted + l.toSend == [Some(l.accepted[|l.fired|].message)]
               && l.queue[0] == Queued(None, l.accepted[|l.fired|].handler)
               && Unsent(l.queue[1..], l.accepted[|l.fired| + 1..]))
       case InHandler =>
         && !l.stopped && |l.wire| == |l.fired| && l.inProgress && l.posted + l.toSend == []
         && (forall k | 0 <= k < |l.fired| :: l.fired[k].ok)
         && l.queue != [] && Unsent(l.queue[1..], l.accepted[|l.fired|..])
       case Failing => l.stopped && QueueShows(l.queue, l.accepted[|l.fired|..])
       case Ending => l.stopped && QueueShows(l.queue, l.accepted[|l.fired|..]) && (l.dialled ==> l.fired != [])
       case Gone => l.stopped && l.queue == [] && (l.dialled ==> l.fired != [])
  }

  // ---- what every step keeps: the whole peer ----

  function Handlers(rs: seq<Received>): seq<nat> { seq(|rs|, i requires 0 <= i < |rs| => rs[i].handler) }

  function Tmp(s: Peer): seq<nat> { if s.strand.Delivering? then s.strand.tmp else [] }

  ghost predicate ReceiveOk(s: Peer) {
    && (s.pending == [] || s.toRecv == [])
    && (s.pending == [] || Tmp(s) == [])
    && Handlers(s.log.paired) + Tmp(s) + s.toRecv == s.log.registered
  }

  /** A user's handler stands in one place of one connection's list of accepted sends. */
  ghost predicate Sole(s: Peer, a: Address, i: nat, b: Address, j: nat) {
    a in s.links && b in s.links && i < |s.links[a].accepted| && j < |s.links[b].accepted|
    && s.links[a].accepted[i].handler.User? && s.links[a].accepted[i].handler == s.links[b].accepted[j].handler
    ==> a == b && i == j
  }

  ghost predicate Numbered(s: Peer, a: Address)
    requires a in s.links
  {
    forall k | 0 <= k < |s.links[a].accepted| ::
      match s.links[a].accepted[k].handler
      case NoOp => s.links[a].accepted[k].message.hello
      case User(id) => id < s.sends
  }

  ghost predicate StrandOk(s: Peer) {
    !s.strand.Idle? ==> s.strand.addr in s.links && s.links[s.strand.addr].known
  }

  ghost predicate LinksOk(s: Peer) { forall a | a in s.links :: LinkOk(s.links[a], ModeOf(s, a)) }

  ghost predicate HandlersOk(s: Peer) {
    (forall a | a in s.links :: Numbered(s, a)) && (forall a, i, b, j :: Sole(s, a, i, b, j))
  }

  /** Refused sends come after all accepted ones and are refused once. */
  ghost predicate RefusedOk(s: Peer) {
    && (!s.stopping ==> s.log.refused == [])
    && (forall k | 0 <= k < |s.log.refused| :: s.log.refused[k] < s.sends)
    && (forall j, k | 0 <= j < k < |s.log.refused| :: s.log.refused[j] < s.log.refused[k])
    && (forall a, i, k :: Before(s, a, i, k))
  }

  ghost predicate Before(s: Peer, a: Address, i: nat, k: nat) {
    a in s.links && i < |s.links[a].accepted| && s.links[a].accepted[i].handler.User? && k < |s.log.refused|
    ==> s.links[a].accepted[i].handler.id < s.log.refused[k]
  }

  ghost predicate Inv(s: Peer) {
    !s.inconsistent && StrandOk(s) && LinksOk(s) && HandlersOk(s) && RefusedOk(s) && ReceiveOk(s)
  }

  // ---- one connection through its steps ----

  lemma HelloKeeps(m: Message)
    requires m.hello
    ensures LinkOk(FRESH, Open) && LinkOk(SayHello(FRESH, m), Open)
  {
    var l := SayHello(FRESH, m);
    assert l.queue == [Queued(None, NoOp)] && l.accepted == [Entry(m, NoOp)] && l.posted == [Some(m)];
  }

  lemma OrderedMore(l: Link, l': Link, e: Entry)
    requires Ordered(l) && !e.message.hello && l'.accepted == l.accepted + [e] && l'.dialled == l.dialled
    requires l'.wire == l.wire && l'.fired == l.fired && l'.live == l.live && l'.toSend == l.toSend
    ensures Ordered(l')
  {}

  lemma Extended<T>(s: seq<T>, k: nat, x: T)
    requires k <= |s|
    ensures (s + [x])[k..] == s[k..] + [x]
  {}

  lemma EnqueueOnEmpty(l: Link, m: Message, h: Handler)
    requires l.queue == []
    ensures Enqueue(l, m, h) ==
              if l.inProgress then l.(queue := [Queued(Some(m), h)], accepted := l.accepted + [Entry(m, h)])
              else l.(queue := [Queued(None, h)], accepted := l.accepted + [Entry(m, h)],
                      inProgress := true, posted := l.posted + [Some(m)])
  {
    assert PushBack(l, m, h).queue == [Queued(Some(m), h)];
  }

  lemma EnqueueFirst(l: Link, m: Message, h: Handler)
    requires LinkOk(l, Open) && !m.hello && l.queue == []
    ensures LinkOk(Enqueue(l, m, h), Open)
  {
    hide Ordered, Enqueue;
    var l', f := Enqueue(l, m, h), |l.fired|;
    EnqueueOnEmpty(l, m, h);
    OrderedMore(l, l', Entry(m, h));
    assert |l.posted + l.toSend| == 0;
    assert l'.accepted[f] == Entry(m, h);
    assert l'.posted + l'.toSend == [Some(m)];
    assert l'.queue[1..] == [] && l'.accepted[f + 1..] == [];
  }

  lemma EnqueueFailing(l: Link, mode: Mode, m: Message, h: Handler)
    requires LinkOk(l, mode) && (mode.Failing? || mode.Ending?) && !m.hello && l.queue == []
    ensures LinkOk(Enqueue(l, m, h), mode)
  {
    hide Ordered, Enqueue;
    EnqueueOnEmpty(l, m, h);
    OrderedMore(l, Enqueue(l, m, h), Entry(m, h));
    OrderedSizes(l);
    Extended(l.accepted, |l.fired|, Entry(m, h));
  }

  lemma OrderedSizes(l: Link)
    requires Ordered(l)
    ensures |l.wire| <= |l.accepted| && |l.fired| <= |l.accepted|
  {}

  lemma EnqueueMore(l: Link, mode: Mode, m: Message, h: Handler)
    requires LinkOk(l, mode) && !mode.Gone? && !m.hello && l.queue != []
    ensures LinkOk(Enqueue(l, m, h), mode)
  {
    hide Ordered;
    var l', f := Enqueue(l, m, h), |l.fired|;
    OrderedMore(l, l', Entry(m, h));
    OrderedSizes(l);
    Extended(l.queue, 1, Queued(Some(m), h));
    Extended(l.accepted, f, Entry(m, h));
    if mode.Open? { Extended(l.accepted, f + 1, Entry(m, h)); }
  }

  lemma EnqueueKeeps(l: Link, mode: Mode, m: Message, h: Handler)
    requires LinkOk(l, mode) && !mode.Gone? && !m.hello
    ensures LinkOk(Enqueue(l, m, h), mode)
  {
    hide Enqueue, Ordered, Unsent, QueueShows;
    if l.queue != [] {
      EnqueueMore(l, mode, m, h);
    } else if mode.Open? {
      EnqueueFirst(l, m, h);
    } else {
      EnqueueFailing(l, mode, m, h);
    }
  }

  lemma PostedKeeps(l: Link, mode: Mode)
    requires LinkOk(l, mode) && l.posted != []
    ensures LinkOk(RunPosted(l), mode)
  {
    var l' := RunPosted(l);
    if mode.Open? {
      assert (l.posted + l.toSend)[0] == l.posted[0] && |l.posted + l.toSend| == 1;
      assert l'.posted + l'.toSend == l.posted + l.toSend;
    }
  }

  lemma OrderedWritten(l: Link)
    requires Ordered(l) && l.toSend != [] && l.live
    ensures l.stopped || |l.toSend| == 1 ==> Ordered(TakeWritten(l))
  {}

  lemma OrderedFired(l: Link)
    requires Ordered(l) && l.queue != [] && |l.fired| < |l.wire| && l.queue[0].handler == l.accepted[|l.fired|].handler
    ensures Ordered(Fire(l, true))
  {}

  lemma WrittenKeeps(l: Link, mode: Mode)
    requires LinkOk(l, mode) && l.toSend != [] && l.live && (mode.Open? || mode.Gone?)
    ensures mode.Open? ==> l.queue != [] && LinkOk(Fire(TakeWritten(l), true), InHandler)
    ensures mode.Gone? ==> LinkOk(TakeWritten(l), Gone)
  {
    hide Ordered, Unsent;
    OrderedSizes(l);
    OrderedWritten(l);
    if mode.Open? {
      assert |l.posted + l.toSend| == 1;
      OrderedFired(TakeWritten(l));
      assert l.posted == [] && TakeWritten(l).toSend == [];
    }
  }

  lemma HandlerKeeps(l: Link)
    requires LinkOk(l, InHandler)
    ensures LinkOk(AfterHandler(l), Open)
  {
    hide Ordered;
    var l', f := AfterHandler(l), |l.fired|;
    OrderedSizes(l);
    assert Ordered(l') by { NothingBelow(l, l'); }
    if |l.queue| == 1 {
      assert l'.queue == [];
    } else {
      var rest := l.queue[1..];
      assert rest[0] == Queued(Some(l.accepted[f..][0].message), l.accepted[f..][0].handler);
      assert l'.queue[1..] == rest[1..];
      assert l.accepted[f + 1..] == l.accepted[f..][1..];
    }
  }

  lemma NothingBelow(l: Link, l': Link)
    requires Ordered(l) && l.posted + l.toSend == []
    requires l' == l.(queue := l'.queue, posted := l'.posted, inProgress := l'.inProgress)
    ensures Ordered(l')
  {}

  lemma FailedKeeps(l: Link)
    requires LinkOk(l, Open)
    ensures LinkOk(l.(stopped := true, inProgress := false), Failing)
  {
    var rest := l.accepted[|l.fired|..];
    if l.queue != [] {
      assert rest[1..] == l.accepted[|l.fired| + 1..];
      forall k | 0 <= k < |l.queue| ensures l.queue[k].handler == rest[k].handler {
        if 0 < k { assert l.queue[k] == l.queue[1..][k - 1] && rest[k] == rest[1..][k - 1]; }
      }
    }
  }

  lemma FailSendKeeps(l: Link)
    requires LinkOk(l, Failing) && l.queue != []
    ensures LinkOk(Pop(Fire(l, false)), Failing)
  {
    var l' := Pop(Fire(l, false));
    assert l.accepted[|l.fired|..][0] == l.accepted[|l.fired|];
    assert l'.accepted[|l'.fired|..] == l.accepted[|l.fired|..][1..];
  }

  lemma EraseKeeps(l: Link)
    requires LinkOk(l, Ending)
    ensures LinkOk(l.(known := false, queue := []), Gone)
  {}

  // ---- the peer through its steps ----

  lemma LinkChanged(s: Peer, s': Peer, a: Address, l: Link)
    requires LinksOk(s) && s'.links == s.links[a := l] && LinkOk(l, ModeOf(s', a))
    requires forall b | b in s.links && b != a :: ModeOf(s', b) == ModeOf(s, b)
    ensures LinksOk(s')
  {
    hide LinkOk;
  }

  /** The accepted sends of connection a, if it exists. */
  ghost function AcceptedBy(s: Peer, a: Address): seq<Entry> { if a in s.links then s.links[a].accepted else [] }

  ghost predicate NoNewSends(s: Peer, s': Peer, a: Address) {
    forall i | 0 <= i < |AcceptedBy(s', a)| && AcceptedBy(s', a)[i].handler.User? ::
      i < |AcceptedBy(s, a)| && AcceptedBy(s', a)[i] == AcceptedBy(s, a)[i]
  }

  lemma RefusedStays(s: Peer, s': Peer)
    requires RefusedOk(s) && s.sends <= s'.sends && s'.log.refused == s.log.refused && (s.stopping ==> s'.stopping)
    requires s.stopping ==> forall a | a in s'.links :: NoNewSends(s, s', a)
    ensures RefusedOk(s')
  {
    forall a, i: nat, k: nat ensures Before(s', a, i, k) {
      assert Before(s, a, i, k);
      if a in s'.links && i < |s'.links[a].accepted| && k < |s.log.refused| {
        assert NoNewSends(s, s', a) && AcceptedBy(s', a)[i] == s'.links[a].accepted[i];
      }
    }
  }

  lemma RefusedGrows(s: Peer)
    requires RefusedOk(s) && HandlersOk(s) && s.stopping
    ensures RefusedOk(s.(sends := s.sends + 1, log := s.log.(refused := s.log.refused + [s.sends])))
  {
    var s' := s.(sends := s.sends + 1, log := s.log.(refused := s.log.refused + [s.sends]));
    forall a, i: nat, k: nat ensures Before(s', a, i, k) {
      assert Before(s, a, i, k);
      if a in s.links { assert Numbered(s, a); }
    }
  }

  lemma HandlersStay(s: Peer, s': Peer)
    requires HandlersOk(s) && s.sends <= s'.sends && s.links.Keys <= s'.links.Keys
    requires forall a | a in s'.links :: AcceptedBy(s', a) == AcceptedBy(s, a)
    ensures HandlersOk(s')
  {
    forall a | a in s'.links ensures Numbered(s', a) {
      assert AcceptedBy(s', a) == AcceptedBy(s, a);
      if a in s.links { assert Numbered(s, a); }
    }
    forall a, i, b, j ensures Sole(s', a, i, b, j) {
      if a in s'.links && b in s'.links {
        assert AcceptedBy(s', a) == AcceptedBy(s, a) && AcceptedBy(s', b) == AcceptedBy(s, b);
        assert Sole(s, a, i, b, j);
      }
    }
  }

  lemma HandlersGrow(s: Peer, s': Peer, a: Address, e: Entry)
    requires HandlersOk(s) && s.sends <= s'.sends && s'.links.Keys == s.links.Keys + {a}
    requires forall b | b in s'.links && b != a :: AcceptedBy(s', b) == AcceptedBy(s, b)
    requires AcceptedBy(s', a) == AcceptedBy(s, a) + [e]
    requires if e.message.hello then e.handler == NoOp else e.handler == User(s.sends) && s.sends < s'.sends
    ensures HandlersOk(s')
  {
    forall b | b in s'.links ensures Numbered(s', b) {
      assert b != a ==> AcceptedBy(s', b) == AcceptedBy(s, b);
      if b in s.links { assert Numbered(s, b); }
    }
    forall b, i, c, j ensures Sole(s', b, i, c, j) {
      if b in s'.links && c in s'.links {
        assert b != a ==> AcceptedBy(s', b) == AcceptedBy(s, b);
        assert c != a ==> AcceptedBy(s', c) == AcceptedBy(s, c);
        if b in s.links { assert Numbered(s, b); }
        if c in s.links { assert Numbered(s, c); }
        assert Sole(s, b, i, c, j);
      }
    }
  }

  lemma ReceiveStays(s: Peer, s': Peer)
    requires ReceiveOk(s) && s'.pending == s.pending && s'.toRecv == s.toRecv && Tmp(s') == Tmp(s)
    requires s'.log.paired == s.log.paired && s'.log.registered == s.log.registered
    ensures ReceiveOk(s')
  {}

  lemma OpensKeep(s: Peer, e: Event)
    requires Inv(s) && Enabled(s, e) && (e.Connected? || e.Accepted?)
    ensures Inv(Step(s, e))
  {
    hide LinkOk, HandlersOk, RefusedOk, ReceiveOk;
    var s' := Step(s, e);
    ReceiveStays(s, s');
    RefusedStays(s, s');
    HelloKeeps(Hello(s.me, e.addr));
    LinkChanged(s, s', e.addr, s'.links[e.addr]);
    if e.Connected? {
      HandlersGrow(s, s', e.addr, Entry(Hello(s.me, e.addr), NoOp));
    } else {
      HandlersStay(s, s');
    }
  }

  lemma SendAccepted(s: Peer, s': Peer, a: Address, l: Link, e: Entry)
    requires Inv(s) && !s.stopping && a in s.links && s.links[a].known
    requires s' == s.(sends := s.sends + 1, links := s.links[a := l])
    requires LinkOk(l, ModeOf(s, a)) && l.known && l.accepted == s.links[a].accepted + [e]
    requires !e.message.hello && e.handler == User(s.sends)
    ensures Inv(s')
  {
    hide LinkOk, HandlersOk, RefusedOk, ReceiveOk;
    ReceiveStays(s, s');
    RefusedStays(s, s');
    LinkChanged(s, s', a, l);
    HandlersGrow(s, s', a, e);
  }

  lemma SendTurnedDown(s: Peer, s': Peer)
    requires Inv(s) && s' == s.(sends := s.sends + 1, log := s.log.(refused := s'.log.refused))
    requires if s.stopping then s'.log.refused == s.log.refused + [s.sends] else s'.log.refused == s.log.refused
    ensures Inv(s')
  {
    hide LinkOk, HandlersOk, RefusedOk, ReceiveOk;
    ReceiveStays(s, s');
    if s.stopping { RefusedGrows(s); } else { RefusedStays(s, s'); }
    HandlersStay(s, s');
  }

  lemma SendKeeps(s: Peer, a: Address, data: string)
    requires Inv(s)
    ensures Inv(DoSend(s, a, data))
  {
    hide LinkOk, Inv, Enqueue;
    if !s.stopping && a in s.links && s.links[a].known {
      var m, h := Message(s.me, a, false, data), User(s.sends);
      LinkOf(s, a);
      EnqueueKeeps(s.links[a], ModeOf(s, a), m, h);
      EnqueueAccepts(s.links[a], m, h);
      SendAccepted(s, DoSend(s, a, data), a, Enqueue(s.links[a], m, h), Entry(m, h));
    } else {
      SendTurnedDown(s, DoSend(s, a, data));
    }
  }

  lemma EnqueueAccepts(l: Link, m: Message, h: Handler)
    ensures Enqueue(l, m, h).accepted == l.accepted + [Entry(m, h)] && Enqueue(l, m, h).known == l.known
    ensures Enqueue(l, m, h).fired == l.fired
  {}

  /** A step of the strand on connection a that accepts nothing. */
  lemma LinkStepKeeps(s: Peer, s': Peer, a: Address, l: Link)
    requires Inv(s) && a in s.links && s' == s.(links := s.links[a := l], strand := s'.strand, locked := s'.locked)
    requires StrandOk(s') && Tmp(s') == Tmp(s) && LinkOk(l, ModeOf(s', a)) && l.accepted == s.links[a].accepted
    requires forall b | b in s.links && b != a :: ModeOf(s', b) == ModeOf(s, b)
    ensures Inv(s')
  {
    hide LinkOk, HandlersOk, RefusedOk, ReceiveOk;
    ReceiveStays(s, s');
    RefusedStays(s, s');
    LinkChanged(s, s', a, l);
    HandlersStay(s, s');
  }

  lemma LinkOf(s: Peer, a: Address)
    requires Inv(s) && a in s.links
    ensures LinkOk(s.links[a], ModeOf(s, a)) && StrandOk(s)
  {
    hide LinkOk, HandlersOk, RefusedOk, ReceiveOk;
  }

  lemma WriteKeeps(s: Peer, a: Address)
    requires Inv(s) && Enabled(s, Written(a))
    ensures Inv(DoWritten(s, a))
  {
    hide LinkOk, Inv;
    LinkOf(s, a);
    WrittenKeeps(s.links[a], ModeOf(s, a));
    var s' := DoWritten(s, a);
    NeverInconsistent(s);
    LinkStepKeeps(s, s', a, s'.links[a]);
  }

  lemma NeverInconsistent(s: Peer)
    requires Inv(s)
    ensures !s.inconsistent
  {
    hide LinkOk, HandlersOk, RefusedOk, ReceiveOk;
  }

  lemma PostKeeps(s: Peer, a: Address)
    requires Inv(s) && Enabled(s, Posted(a))
    ensures Inv(Step(s, Posted(a)))
  {
    hide LinkOk, Inv, RunPosted;
    LinkOf(s, a);
    PostedKeeps(s.links[a], ModeOf(s, a));
    PostedAccepts(s.links[a]);
    LinkStepKeeps(s, Step(s, Posted(a)), a, RunPosted(s.links[a]));
  }

  lemma PostedAccepts(l: Link)
    requires l.posted != []
    ensures RunPosted(l).accepted == l.accepted && RunPosted(l).known == l.known
  {}

  lemma CompleteKeeps(s: Peer)
    requires Inv(s) && Enabled(s, Completed)
    ensures Inv(Step(s, Completed))
  {
    hide LinkOk, Inv;
    var a := s.strand.addr;
    LinkOf(s, a);
    HandlerKeeps(s.links[a]);
    LinkStepKeeps(s, Step(s, Completed), a, AfterHandler(s.links[a]));
  }

  lemma FailKeeps(s: Peer, a: Address)
    requires Inv(s) && Enabled(s, Failed(a))
    ensures Inv(Step(s, Failed(a)))
  {
    hide LinkOk, Inv;
    LinkOf(s, a);
    var l := s.links[a];
    if l.known {
      FailedKeeps(l);
      LinkStepKeeps(s, Step(s, Failed(a)), a, l.(stopped := true, inProgress := false));
    }
  }

  lemma DrainKeeps(s: Peer)
    requires Inv(s) && Enabled(s, FailSend)
    ensures Inv(Step(s, FailSend))
  {
    hide LinkOk, Inv;
    var a := s.strand.addr;
    LinkOf(s, a);
    FailSendKeeps(s.links[a]);
    LinkStepKeeps(s, Step(s, FailSend), a, Pop(Fire(s.links[a], false)));
  }

  lemma ErasesKeep(s: Peer)
    requires Inv(s) && Enabled(s, Erase)
    ensures Inv(Step(s, Erase))
  {
    hide LinkOk, Inv;
    var a := s.strand.addr;
    LinkOf(s, a);
    EraseKeeps(s.links[a]);
    LinkStepKeeps(s, Step(s, Erase), a, s.links[a].(known := false, queue := []));
  }

  // ---- the receiving side through its steps ----

  lemma HandlersMore(rs: seq<Received>, r: Received)
    ensures Handlers(rs + [r]) == Handlers(rs) + [r.handler]
  {}

  lemma WithoutNothing(dst: Address)
    ensures Without([], dst) == []
  {}

  lemma RecvKeeps(s: Peer)
    requires ReceiveOk(s)
    ensures ReceiveOk(DoRecv(s))
  {
    hide Handlers;
    var hs, tmp := Handlers(s.log.paired), Tmp(s);
    if s.pending == [] {
      assert hs + tmp + (s.toRecv + [s.recvs]) == hs + tmp + s.toRecv + [s.recvs];
    } else {
      HandlersMore(s.log.paired, Received(s.recvs, Some(s.pending[0])));
      assert hs + tmp + s.toRecv == hs && hs + [s.recvs] + tmp + s.toRecv == hs + [s.recvs];
    }
  }

  lemma ArriveKeeps(s: Peer, m: Message)
    requires ReceiveOk(s) && s.strand.Idle?
    ensures ReceiveOk(DoArrive(s, m))
  {
    hide Handlers;
    var hs := Handlers(s.log.paired);
    if s.toRecv != [] {
      HandlersMore(s.log.paired, Received(s.toRecv[0], Some(m)));
      assert hs + [] + s.toRecv == hs + [s.toRecv[0]] + [] + s.toRecv[1..];
    }
  }

  lemma FailReceiveKeeps(s: Peer)
    requires ReceiveOk(s) && Enabled(s, FailReceive)
    ensures ReceiveOk(Step(s, FailReceive))
  {
    hide Handlers;
    var hs, tmp := Handlers(s.log.paired), s.strand.tmp;
    HandlersMore(s.log.paired, Received(tmp[0], None));
    assert hs + tmp + s.toRecv == hs + [tmp[0]] + tmp[1..] + s.toRecv;
  }

  lemma FailReceivesKeeps(s: Peer)
    requires ReceiveOk(s) && Enabled(s, FailReceives)
    ensures ReceiveOk(Step(s, FailReceives))
  {
    hide Handlers, Without;
    var hs := Handlers(s.log.paired);
    WithoutNothing(s.strand.addr);
    assert hs + [] + s.toRecv == hs + s.toRecv + [];
  }

  lemma ReceivesKeep(s: Peer, e: Event)
    requires Inv(s) && Enabled(s, e)
    requires e.Recv? || e.Call? || e.Arrive? || e.FailReceives? || e.FailReceive? || e.Stop?
    ensures Inv(Step(s, e))
  {
    hide LinkOk, HandlersOk, RefusedOk, ReceiveOk, Without;
    var s' := Step(s, e);
    HandlersStay(s, s');
    RefusedStays(s, s');
    match e {
      case Recv => RecvKeeps(s);
      case Call(_) => ReceiveStays(s, s');
      case Arrive(m) => ReceiveStays(s, Noted(s, m)); ArriveKeeps(Noted(s, m), m);
      case FailReceives => EndingStarts(s); FailReceivesKeeps(s);
      case FailReceive => FailReceiveKeeps(s);
      case Stop => ReceiveStays(s, s');
    }
  }

  lemma EndingStarts(s: Peer)
    requires LinksOk(s) && Enabled(s, FailReceives) && StrandOk(s)
    ensures LinksOk(Step(s, FailReceives))
  {
    var l := s.links[s.strand.addr];
    assert LinkOk(l, ModeOf(s, s.strand.addr));
  }

  /** Every step keeps the invariant. */
  lemma StepKeeps(s: Peer, e: Event)
    requires Inv(s) && Enabled(s, e)
    ensures Inv(Step(s, e))
  {
    hide Inv, DoSend, DoWritten, DoRecv, DoArrive;
    match e
    case Connected(_) => OpensKeep(s, e);
    case Accepted(_) => OpensKeep(s, e);
    case Send(a, data) => SendKeeps(s, a, data);
    case Written(a) => WriteKeeps(s, a);
    case Posted(a) => PostKeeps(s, a);
    case Completed => CompleteKeeps(s);
    case Failed(a) => FailKeeps(s, a);
    case FailSend => DrainKeeps(s);
    case Erase => ErasesKeep(s);
    case Recv => ReceivesKeep(s, e);
    case Call(_) => ReceivesKeep(s, e);
    case Arrive(_) => ReceivesKeep(s, e);
    case FailReceives => ReceivesKeep(s, e);
    case FailReceive => ReceivesKeep(s, e);
    case Stop => ReceivesKeep(s, e);
  }
}
