/** The order in which receive handlers are called. async_recv pairs a handler with a waiting
    message under the mutex and calls it after giving the mutex up, so two threads can overtake
    each other between the two. */
module PeerCalls {
  import opened Wrappers
  import opened PeerQueues
  import opened PeerRuns

  /** The receive handler a step calls, if any, with what it is given. */
  function CalledBy(s: Peer, e: Event): Option<Received>
    requires Enabled(s, e)
  {
    match e
    case Call(k) => Some(s.log.uncalled[k])
    case FailReceive => Some(Received(s.strand.tmp[0], None))
    case Arrive(m) => if s.toRecv == [] then None else Some(Received(s.toRecv[0], Some(m)))
    case _ => None
  }

  /** A handler is called while one registered earlier is paired and not called yet. */
  ghost predicate Overtakes(s: Peer, e: Event)
    requires Enabled(s, e)
  {
    CalledBy(s, e).Some? && Behind(s.log.uncalled, CalledBy(s, e).value)
  }

  ghost predicate Behind(uncalled: seq<Received>, r: Received) {
    exists j :: 0 <= j < |uncalled| && uncalled[j].handler < r.handler
  }

  ghost predicate Overtaking(s0: Peer, events: seq<Event>) {
    && events != []
    && var n := |events| - 1;
       || Overtaking(s0, events[..n])
       || match Run(s0, events[..n])
          case None => false
          case Some(s) => Enabled(s, events[n]) && Overtakes(s, events[n])
  }

  // ---- one step ----

  /** What a step does to the calls. */
  lemma CallEffect(s: Peer, e: Event)
    requires Enabled(s, e)
    ensures var l, l' := s.log, Step(s, e).log;
            match CalledBy(s, e)
            case None => l'.called == l.called && (Unpaired(l, l') || Paired(l, l'))
            case Some(r) => if e.Call? then l' == l.CallsLater(e.index) else CalledAtOnce(l, l', r)
  {
    hide Without, Enqueue, StartSender, Launch;
  }

  ghost predicate Unpaired(l: Log, l': Log) { l'.paired == l.paired && l'.uncalled == l.uncalled }

  ghost predicate Paired(l: Log, l': Log) {
    exists r :: l'.paired == l.paired + [r] && l'.uncalled == l.uncalled + [r]
  }

  ghost predicate CalledAtOnce(l: Log, l': Log, r: Received) {
    l'.paired == l.paired + [r] && l'.called == l.called + [r] && l'.uncalled == l.uncalled
  }

  /** A handler was called before one registered earlier, which was called later or is still to be called. */
  ghost predicate Inverted(l: Log) {
    exists a, b ::
      0 <= a < |l.called| && a < b < |l.called + l.uncalled|
      && (l.called + l.uncalled)[b].handler < l.called[a].handler
  }

  /** The calls made and the calls to come are the pairings, in order unless someone overtook. */
  ghost predicate Accounted(l: Log, overtaken: bool) {
    && multiset(l.called + l.uncalled) == multiset(l.paired)
    && |l.called| + |l.uncalled| == |l.paired|
    && (!overtaken ==> l.called + l.uncalled == l.paired)
    && (overtaken ==> !(l.called <= l.paired) && Inverted(l))
  }

  lemma RisingAt(rs: seq<Received>, i: nat, j: nat)
    requires Rising(Handlers(rs)) && i < j < |rs|
    ensures rs[i].handler < rs[j].handler
  {
    assert Handlers(rs)[i] == rs[i].handler && Handlers(rs)[j] == rs[j].handler;
  }

  lemma NotYet(called: seq<Received>, called': seq<Received>, paired: seq<Received>, paired': seq<Received>)
    requires !(called <= paired) && called <= called' && paired <= paired' && |called| <= |paired|
    ensures !(called' <= paired')
  {
    assert called != paired[..|called|];
    var k :| 0 <= k < |called| && called[k] != paired[k];
    assert called'[k] == called[k] && paired'[k] == paired[k];
  }

  lemma PairingKeeps(l: Log, l': Log, overtaken: bool)
    requires Accounted(l, overtaken) && l'.called == l.called && Paired(l, l')
    ensures Accounted(l', overtaken)
  {
    var r :| l'.paired == l.paired + [r] && l'.uncalled == l.uncalled + [r];
    assert l'.called + l'.uncalled == l.called + l.uncalled + [r];
    if overtaken {
      NotYet(l.called, l'.called, l.paired, l'.paired);
      var a, b :| 0 <= a < |l.called| && a < b < |l.called + l.uncalled|
                  && (l.called + l.uncalled)[b].handler < l.called[a].handler;
      assert (l'.called + l'.uncalled)[b] == (l.called + l.uncalled)[b];
    }
  }

  lemma StrandCallKeeps(l: Log, l': Log, r: Received, overtaken: bool)
    requires Accounted(l, overtaken) && CalledAtOnce(l, l', r) && Rising(Handlers(l'.paired))
    ensures Accounted(l', overtaken || Behind(l.uncalled, r))
  {
    assert multiset(l'.called + l'.uncalled) == multiset(l.called + l.uncalled) + multiset{r};
    if overtaken {
      NotYet(l.called, l'.called, l.paired, l'.paired);
      InvertedOn(l, l', r);
    } else if l.uncalled == [] {
      assert l'.called + l'.uncalled == l.called + l.uncalled + [r];
    } else {
      var n := |l.called|;
      assert l'.paired[n] == l.uncalled[0] && l'.paired[|l.paired|] == r;
      RisingAt(l'.paired, n, |l.paired|);
      assert l'.called[n] == r && (l'.called + l'.uncalled)[n + 1] == l.uncalled[0];
    }
  }

  lemma InvertedOn(l: Log, l': Log, r: Received)
    requires Inverted(l) && CalledAtOnce(l, l', r)
    ensures Inverted(l')
  {
    var a, b :| 0 <= a < |l.called| && a < b < |l.called + l.uncalled|
                && (l.called + l.uncalled)[b].handler < l.called[a].handler;
    var b' := if b < |l.called| then b else b + 1;
    assert (l'.called + l'.uncalled)[b'] == (l.called + l.uncalled)[b] && l'.called[a] == l.called[a];
  }

  lemma LaterCallKeeps(l: Log, k: nat, overtaken: bool)
    requires Accounted(l, overtaken) && k < |l.uncalled| && Rising(Handlers(l.paired))
    ensures Accounted(l.CallsLater(k), overtaken || Behind(l.uncalled, l.uncalled[k]))
  {
    var l', r, n := l.CallsLater(k), l.uncalled[k], |l.called|;
    TakenOut(l.called, l.uncalled, k);
    if overtaken {
      NotYet(l.called, l'.called, l.paired, l'.paired);
      InvertedLater(l, k);
    } else if k == 0 {
      assert l'.called + l'.uncalled == l.paired;
      forall j | 0 <= j < |l.uncalled| ensures l.uncalled[j].handler >= r.handler {
        assert l.paired[n + j] == l.uncalled[j];
        if j > 0 { RisingAt(l.paired, n, n + j); }
      }
    } else {
      assert l.paired[n] == l.uncalled[0] && l.paired[n + k] == r;
      RisingAt(l.paired, n, n + k);
      assert l'.called[n] == r && (l'.called + l'.uncalled)[n + 1] == l.uncalled[0];
    }
  }

  lemma TakenOut(called: seq<Received>, uncalled: seq<Received>, k: nat)
    requires k < |uncalled|
    ensures multiset(called + [uncalled[k]] + (uncalled[..k] + uncalled[k + 1..])) == multiset(called + uncalled)
  {
    assert uncalled == uncalled[..k] + [uncalled[k]] + uncalled[k + 1..];
  }

  lemma InvertedLater(l: Log, k: nat)
    requires Inverted(l) && k < |l.uncalled|
    ensures Inverted(l.CallsLater(k))
  {
    var l', n := l.CallsLater(k), |l.called|;
    var a, b :| 0 <= a < |l.called| && a < b < |l.called + l.uncalled|
                && (l.called + l.uncalled)[b].handler < l.called[a].handler;
    var b' := if b < n then b else if b - n < k then b + 1 else if b - n == k then n else b;
    assert (l'.called + l'.uncalled)[b'] == (l.called + l.uncalled)[b] && l'.called[a] == l.called[a];
  }

  // ---- whole runs ----

  lemma PairedRising(me: Address, events: seq<Event>, s: Peer)
    requires Run(Initial(me), events) == Some(s)
    ensures Rising(Handlers(s.log.paired))
  {
    hide Run, Handlers;
    ReceiveOrder(me, events, s);
    var hs, all := Handlers(s.log.paired), s.log.registered + s.log.turnedAway;
    forall j, k | 0 <= j < k < |hs| ensures hs[j] < hs[k] {
      assert hs[j] == (hs + Tmp(s) + s.toRecv)[j] == all[j];
      assert hs[k] == (hs + Tmp(s) + s.toRecv)[k] == all[k];
    }
  }

  lemma {:induction false} AccountedRun(me: Address, events: seq<Event>)
    requires Run(Initial(me), events).Some?
    ensures Accounted(Run(Initial(me), events).value.log, Overtaking(Initial(me), events))
  {
    hide Accounted, Step, Enabled;
    if events == [] {
      NothingCalled(me);
    } else {
      var init, e := events[..|events| - 1], events[|events| - 1];
      var s, s' := Run(Initial(me), init).value, Run(Initial(me), events).value;
      AccountedRun(me, init);
      PairedRising(me, events, s');
      AccountedStep(s, e, Overtaking(Initial(me), init));
    }
  }

  lemma NothingCalled(me: Address)
    ensures Accounted(Initial(me).log, false)
  {}

  lemma AccountedStep(s: Peer, e: Event, overtaken: bool)
    requires Enabled(s, e) && Accounted(s.log, overtaken) && Rising(Handlers(Step(s, e).log.paired))
    ensures Accounted(Step(s, e).log, overtaken || Overtakes(s, e))
  {
    hide Step, Enabled, Rising, Behind;
    CallEffect(s, e);
    var l, l' := s.log, Step(s, e).log;
    match CalledBy(s, e)
    case None => if Paired(l, l') { PairingKeeps(l, l', overtaken); }
    case Some(r) => if e.Call? { LaterStep(s, e, overtaken); } else { StrandCallKeeps(l, l', r, overtaken); }
  }

  lemma LaterStep(s: Peer, e: Event, overtaken: bool)
    requires e.Call? && Enabled(s, e) && Accounted(s.log, overtaken) && Rising(Handlers(s.log.paired))
    ensures Accounted(s.log.CallsLater(e.index), overtaken || Overtakes(s, e))
  {
    LaterCallKeeps(s.log, e.index, overtaken);
  }

  /** Every paired handler is called at most once. The calls made so far are the first pairings, in
      order of registration and none left out, if and only if no handler was called while one
      registered earlier was paired and not called yet; and once all paired handlers have been
      called, they were called in order of registration if and only if that never happened. */
  lemma CallOrderExactly(me: Address, events: seq<Event>, s: Peer)
    requires Run(Initial(me), events) == Some(s)
    ensures multiset(s.log.called + s.log.uncalled) == multiset(s.log.paired)
    ensures s.log.called <= s.log.paired <==> !Overtaking(Initial(me), events)
    ensures !Overtaking(Initial(me), events) ==> s.log.called + s.log.uncalled == s.log.paired
    ensures s.log.uncalled == [] ==> (Rising(Handlers(s.log.called)) <==> !Overtaking(Initial(me), events))
  {
    hide Run, Overtaking;
    AccountedRun(me, events);
    PairedRising(me, events, s);
    var l := s.log;
    if l.uncalled == [] {
      assert l.called + l.uncalled == l.called;
      if Inverted(l) {
        var a, b :| 0 <= a < |l.called| && a < b < |l.called + l.uncalled|
                    && (l.called + l.uncalled)[b].handler < l.called[a].handler;
        assert Handlers(l.called)[a] > Handlers(l.called)[b];
      }
    }
  }

  // ---- one receive after the other ----

  /** No async_recv starts before the previous one has called its handler. */
  ghost predicate Serial(s0: Peer, events: seq<Event>) {
    events != [] ==>
      var n := |events| - 1;
      && Serial(s0, events[..n])
      && (events[n].Recv? ==> match Run(s0, events[..n]) case None => true case Some(s) => s.log.uncalled == [])
  }

  ghost predicate OneAtATime(s: Peer) {
    |s.log.uncalled| <= 1 && (s.log.uncalled != [] ==> s.toRecv == [] && Tmp(s) == [])
  }

  /** The other steps leave the waiting handlers and the calls to come alone. */
  lemma Aside(s: Peer, e: Event)
    requires Enabled(s, e) && !e.Recv? && !e.Call? && !e.Arrive? && !e.FailReceives? && !e.FailReceive?
    ensures var s' := Step(s, e); s'.log.uncalled == s.log.uncalled && s'.toRecv == s.toRecv && Tmp(s') == Tmp(s)
  {
    hide Enqueue, SayHello, RunPosted, TakeWritten, AfterHandler;
  }

  lemma SerialRecv(s: Peer)
    requires OneAtATime(s) && s.log.uncalled == [] && (s.pending == [] || (s.toRecv == [] && Tmp(s) == []))
    ensures OneAtATime(DoRecv(s))
  {}

  lemma SerialCall(s: Peer, k: nat)
    requires OneAtATime(s) && k < |s.log.uncalled|
    ensures OneAtATime(s.(log := s.log.CallsLater(k)))
  {}

  lemma SerialArrive(s: Peer, m: Message)
    requires OneAtATime(s)
    ensures OneAtATime(DoArrive(Noted(s, m), m))
  {}

  lemma SerialFailures(s: Peer, e: Event)
    requires Enabled(s, e) && OneAtATime(s) && (e.FailReceives? || e.FailReceive?)
    ensures OneAtATime(Step(s, e))
  {
    hide Without;
  }

  lemma SerialStep(s: Peer, e: Event)
    requires Inv(s) && Enabled(s, e) && OneAtATime(s) && (e.Recv? ==> s.log.uncalled == [])
    ensures OneAtATime(Step(s, e))
  {
    hide Inv, DoRecv, DoArrive, DoSend, DoWritten, DoFail, DoErase, DoFailSend, DoComplete, OneAtATime;
    match e
    case Recv => ReceivesApart(s); SerialRecv(s);
    case Call(k) => SerialCall(s, k);
    case Arrive(m) => SerialArrive(s, m);
    case FailReceives => SerialFailures(s, e);
    case FailReceive => SerialFailures(s, e);
    case _ => Aside(s, e); SameReceiving(s, Step(s, e));
  }

  lemma SameReceiving(s: Peer, s': Peer)
    requires OneAtATime(s) && s'.log.uncalled == s.log.uncalled && s'.toRecv == s.toRecv && Tmp(s') == Tmp(s)
    ensures OneAtATime(s')
  {}

  lemma NobodyBehind(s: Peer, e: Event)
    requires Enabled(s, e) && OneAtATime(s)
    ensures !Overtakes(s, e)
  {}

  lemma ReceivesApart(s: Peer)
    requires Inv(s)
    ensures s.pending == [] || (s.toRecv == [] && Tmp(s) == [])
  {
    hide LinkOk, HandlersOk, RefusedOk, Handlers;
  }

  lemma {:induction false} SerialRun(me: Address, events: seq<Event>)
    requires Run(Initial(me), events).Some? && Serial(Initial(me), events)
    ensures OneAtATime(Run(Initial(me), events).value) && !Overtaking(Initial(me), events)
  {
    hide Step, Inv, Overtakes, OneAtATime;
    if events == [] {
      NoneAtATime(me);
    } else {
      var init := events[..|events| - 1];
      SerialRun(me, init);
      RunSound(me, init);
      SerialStep(Run(Initial(me), init).value, events[|events| - 1]);
      NobodyBehind(Run(Initial(me), init).value, events[|events| - 1]);
    }
  }

  lemma NoneAtATime(me: Address)
    ensures OneAtATime(Initial(me))
  {}

  /** A user who never starts a receive before the previous one has called its handler sees the
      handlers called in order of registration and the messages in order of pairing. */
  lemma SerialInOrder(me: Address, events: seq<Event>, s: Peer)
    requires Run(Initial(me), events) == Some(s) && Serial(Initial(me), events)
    ensures s.log.called <= s.log.paired && Rising(Handlers(s.log.called))
    ensures s.log.called + s.log.uncalled == s.log.paired
  {
    hide Run, Serial, Overtaking;
    SerialRun(me, events);
    CallOrderExactly(me, events, s);
    PairedRising(me, events, s);
    forall j, k | 0 <= j < k < |s.log.called| ensures Handlers(s.log.called)[j] < Handlers(s.log.called)[k] {
      RisingAt(s.log.paired, j, k);
    }
  }

  /** Two threads that receive while two messages wait can call their handlers the other way round. */
  lemma HandlersOvertake(me: Address, m1: Message, m2: Message)
    ensures var events := [Arrive(m1), Arrive(m2), Recv, Recv, Call(1), Call(0)];
            && Run(Initial(me), events).Some?
            && var l := Run(Initial(me), events).value.log;
               && l.paired == [Received(0, Some(m1)), Received(1, Some(m2))]
               && l.called == [Received(1, Some(m2)), Received(0, Some(m1))] && l.uncalled == []
  {
    hide Run;
    var s0, a1, a2 := Initial(me), Arrive(m1), Arrive(m2);
    StartsThere(s0);
    var s2 := TwoArrived(me, m1, m2);
    var s4 := BothPaired(s2, m1, m2);
    RunMore(s0, [a1, a2], s2, Recv, [a1, a2, Recv]);
    RunMore(s0, [a1, a2, Recv], Step(s2, Recv), Recv, [a1, a2, Recv, Recv]);
    RunMore(s0, [a1, a2, Recv, Recv], s4, Call(1), [a1, a2, Recv, Recv, Call(1)]);
    RunMore(s0, [a1, a2, Recv, Recv, Call(1)], Step(s4, Call(1)), Call(0), [a1, a2, Recv, Recv, Call(1), Call(0)]);
  }

  lemma TwoArrived(me: Address, m1: Message, m2: Message) returns (s: Peer)
    ensures Run(Initial(me), [Arrive(m1), Arrive(m2)]) == Some(s)
    ensures s.pending == [m1, m2] && s.toRecv == [] && !s.stopping && !s.locked && s.recvs == 0
    ensures s.log.paired == [] && s.log.uncalled == [] && s.log.called == []
  {
    hide Run;
    var s0 := Initial(me);
    StartsThere(s0);
    RunMore(s0, [], s0, Arrive(m1), [Arrive(m1)]);
    s := Step(Step(s0, Arrive(m1)), Arrive(m2));
    RunMore(s0, [Arrive(m1)], Step(s0, Arrive(m1)), Arrive(m2), [Arrive(m1), Arrive(m2)]);
  }

  lemma BothPaired(s: Peer, m1: Message, m2: Message) returns (s': Peer)
    requires s.pending == [m1, m2] && s.toRecv == [] && !s.stopping && !s.locked && s.recvs == 0
    requires s.log.paired == [] && s.log.uncalled == [] && s.log.called == []
    ensures Enabled(s, Recv) && Enabled(Step(s, Recv), Recv) && s' == Step(Step(s, Recv), Recv)
    ensures s'.log.paired == [Received(0, Some(m1)), Received(1, Some(m2))]
    ensures s'.log.uncalled == s'.log.paired && s'.log.called == []
  {
    s' := Step(Step(s, Recv), Recv);
  }
}
