/** src/fhgcom/peer.cpp: the peer's methods. Each is shown to be a step, or a sequence of steps,
    of the transition system in PeerQueues; the user's handlers do nothing in between here. */
module PeerModule {
  import opened Wrappers
  import opened PeerQueues
  import opened PeerRuns

  datatype Outcome = Queued | NetworkDown | UnknownAddress

  function Times(e: Event, n: nat): seq<Event> { seq(n, _ => e) }

  lemma TimesMore(e: Event, n: nat)
    ensures Times(e, 0) == [] && Times(e, n + 1) == Times(e, n) + [e]
  {}

  /** The steps of a teardown in which no handler makes a call. */
  function Teardown(a: Address, sends: nat, receives: nat): seq<Event> {
    [Failed(a)] + Times(FailSend, sends) + ([FailReceives] + Times(FailReceive, receives) + [Erase])
  }

  /** The next step of a run. */
  lemma Continues(me: Address, history: seq<Event>, s: Peer, e: Event)
    requires Run(Initial(me), history) == Some(s) && Enabled(s, e)
    ensures Run(Initial(me), history + [e]) == Some(Step(s, e))
  {
    hide Run, Step, Enabled;
    RunMore(Initial(me), history, s, e, history + [e]);
  }

  class PeerService {
    const me: Address
    var stopping: bool
    var links: map<Address, Link>
    var toRecv: seq<nat>
    var pending: seq<Message>
    ghost var strand: Strand
    ghost var locked: bool
    var sends: nat
    var recvs: nat
    ghost var log: Log
    ghost var inconsistent: bool
    ghost var history: seq<Event>    // every step so far

    ghost function Abs(): Peer
      reads this
    {
      Peer(me, stopping, links, strand, locked, toRecv, pending, sends, recvs, log, inconsistent)
    }

    ghost predicate Valid()
      reads this
    {
      Run(Initial(me), history) == Some(Abs())
    }

    constructor (me: Address)
      ensures Valid() && this.me == me && history == []
    {
      this.me := me;
      stopping, links, toRecv, pending, strand, locked := false, map[], [], [], Idle, false;
      sends, recvs, log, inconsistent, history := 0, 0, Log([], [], [], [], [], [], []), false, [];
    }

    method AsyncSend(addr: Address, data: string) returns (r: Outcome)
      requires Valid() && !locked
      modifies this
      ensures Valid() && history == old(history) + [Send(addr, data)]
      ensures r == NetworkDown <==> old(stopping)
      ensures r == Outcome.Queued <==> !old(stopping) && addr in old(links) && old(links[addr].known)
      ensures r == Outcome.Queued ==>
                && addr in links
                && links[addr].accepted == old(links[addr].accepted)
                   + [Entry(Message(me, addr, false, data), User(old(sends)))]
    {
      hide Run;
      Continues(me, history, Abs(), Send(addr, data));
      history := history + [Send(addr, data)];
      sends := sends + 1;
      if stopping {
        log := log.(refused := log.refused + [sends - 1]);
        return NetworkDown;
      }
      if addr !in links || !links[addr].known {
        return UnknownAddress;
      }
      var l := links[addr];
      var m := Message(me, addr, false, data);
      l := l.(queue := l.queue + [PeerQueues.Queued(Some(m), User(sends - 1))],
              accepted := l.accepted + [Entry(m, User(sends - 1))]);
      if |l.queue| == 1 && !l.inProgress {
        l := l.(inProgress := true, posted := l.posted + [l.queue[0].message],
                queue := [l.queue[0].(message := None)] + l.queue[1..]);
      }
      links := links[addr := l];
      return Outcome.Queued;
    }

    /** async_recv as far as it holds the mutex */
    method TakePending() returns (r: Option<Message>)
      requires Valid() && !locked
      modifies this
      ensures Valid() && history == old(history) + [Recv]
      ensures r.Some? <==> !old(stopping) && old(pending) != []
      ensures r.Some? ==> [r.value] + pending == old(pending)
      ensures log.called == old(log.called)
      ensures r.None? ==> log.uncalled == old(log.uncalled) && log.paired == old(log.paired)
      ensures r.Some? ==>
                && log.uncalled == old(log.uncalled) + [Received(old(recvs), r)]
                && log.paired == old(log.paired) + [Received(old(recvs), r)]
      ensures log.turnedAway == old(log.turnedAway) + if old(stopping) then [old(recvs)] else []
    {
      hide Run;
      ghost var s := Abs();
      r := None;
      recvs, history := recvs + 1, history + [Recv];
      if stopping {
        log := log.(turnedAway := log.turnedAway + [recvs - 1]);
      } else {
        log := log.Registers(recvs - 1);
        if pending == [] {
          toRecv := toRecv + [recvs - 1];
        } else {
          r := Some(pending[0]);
          log := log.Pairs(Received(recvs - 1, r));
          pending := pending[1..];
        }
      }
      Continues(me, old(history), s, Recv);
    }

    /** The call of a paired handler, by the thread that paired it. */
    ghost method CallPaired(k: nat)
      requires Valid() && k < |log.uncalled|
      modifies this`log, this`history
      ensures Valid() && history == old(history) + [Call(k)]
      ensures log == old(log).CallsLater(k)
    {
      hide Run;
      ghost var s := Abs();
      log, history := log.CallsLater(k), history + [Call(k)];
      Continues(me, old(history), s, Call(k));
    }

    /** async_recv of one thread; other threads may run between its two steps. */
    method AsyncRecv() returns (r: Option<Message>)
      requires Valid() && !locked
      modifies this
      ensures Valid()
      ensures history == old(history) + [Recv] + if r.Some? then [Call(|old(log.uncalled)|)] else []
      ensures r.Some? <==> !old(stopping) && old(pending) != []
      ensures r.Some? ==> [r.value] + pending == old(pending)
      ensures r.Some? ==>
                && log.paired == old(log.paired) + [Received(old(recvs), r)]
                && log.called == old(log.called) + [Received(old(recvs), r)]
      ensures r.None? ==> log.paired == old(log.paired) && log.called == old(log.called)
      ensures log.uncalled == old(log.uncalled)
      ensures log.turnedAway == old(log.turnedAway) + if old(stopping) then [old(recvs)] else []
    {
      hide Run, Enabled, Step;
      r := TakePending();
      if r.Some? {
        CallPaired(|old(log.uncalled)|);
      }
    }

    method HandleUserData(m: Message)
      requires Valid() && strand.Idle?
      modifies this
      ensures Valid() && history == old(history) + [Arrive(m)]
      ensures old(toRecv) == [] ==>
                pending == old(pending) + [m] && log.paired == old(log.paired) && log.called == old(log.called)
      ensures old(toRecv) != [] ==>
                && log.paired == old(log.paired) + [Received(old(toRecv)[0], Some(m))]
                && log.called == old(log.called) + [Received(old(toRecv)[0], Some(m))]
    {
      hide Run;
      ghost var s := Abs();
      log, history := log.(arrived := log.arrived + [m]), history + [Arrive(m)];
      if toRecv == [] {
        pending := pending + [m];
      } else {
        log := log.Calls(Received(toRecv[0], Some(m)));
        toRecv := toRecv[1..];
      }
      Continues(me, old(history), s, Arrive(m));
    }

    /** connection_established on a new connection */
    method ConnectionEstablished(addr: Address)
      requires Valid() && strand.Idle? && addr !in links
      modifies this
      ensures Valid() && history == old(history) + [Connected(addr)]
      ensures var hello := Message(me, addr, true, "");
              && addr in links && links == old(links)[addr := links[addr]]
              && links[addr].accepted == [Entry(hello, NoOp)] && links[addr].posted == [Some(hello)]
    {
      hide Run;
      ghost var s := Abs();
      var hello := Message(me, addr, true, "");
      var l := FRESH;
      l := l.(dialled := true, queue := [PeerQueues.Queued(Some(hello), NoOp)] + l.queue,
              accepted := [Entry(hello, NoOp)] + l.accepted);
      l := l.(inProgress := true, posted := l.posted + [l.queue[0].message],
              queue := [l.queue[0].(message := None)] + l.queue[1..]);
      links, history := links[addr := l], history + [Connected(addr)];
      Continues(me, old(history), s, Connected(addr));
    }

    /** handle_write after a successful write, and handle_send up to the user's handler */
    method TakeCompletion(addr: Address)
      requires Valid() && Enabled(Abs(), Written(addr))
      modifies this`links, this`strand, this`history
      ensures Valid() && history == old(history) + [Written(addr)]
      ensures addr in links && links[addr].known == old(links[addr].known)
      ensures if links[addr].known then strand == Completing(addr) && Enabled(Abs(), Completed) else strand.Idle?
    {
      hide Inv, Run;
      ghost var s := Abs();
      RunSound(me, history);
      if links[addr].known { QueueWaits(s, addr); }
      var l := links[addr];
      l := l.(toSend := l.toSend[1..], wire := l.wire + [l.toSend[0]], live := !l.stopped);
      if l.known {
        l := l.(fired := l.fired + [Completion(l.queue[0].handler, true)]);
        strand := Completing(addr);
      }
      links, history := links[addr := l], history + [Written(addr)];
      Continues(me, old(history), s, Written(addr));
    }

    /** handle_send after the user's handler has returned */
    method FinishSend(addr: Address)
      requires Valid() && strand == Completing(addr) && Enabled(Abs(), Completed)
      modifies this`links, this`strand, this`history
      ensures Valid() && history == old(history) + [Completed] && strand.Idle?
    {
      hide Run;
      ghost var s := Abs();
      var l := links[addr];
      l := l.(queue := l.queue[1..]);
      if l.queue != [] {
        l := l.(posted := l.posted + [l.queue[0].message], queue := [l.queue[0].(message := None)] + l.queue[1..]);
      } else {
        l := l.(inProgress := false);
      }
      links, strand, history := links[addr := l], Idle, history + [Completed];
      Continues(me, old(history), s, Completed);
    }

    /** A successful write from the notification to the start of the next transfer. */
    method HandleWrite(addr: Address)
      requires Valid() && Enabled(Abs(), Written(addr))
      modifies this`links, this`strand, this`history
      ensures Valid() && strand.Idle?
      ensures history == old(history) + if old(links[addr].known) then [Written(addr), Completed] else [Written(addr)]
    {
      hide Run, Enabled;
      KnownLink(Abs(), addr);
      TakeCompletion(addr);
      if links[addr].known {
        FinishSend(addr);
      }
    }

    /** handle_error on a known connection, from the stop to the removal of its entry: every send
        still queued fails, in order, then every waiting receive, in order. */
    method HandleError(addr: Address)
      requires Valid() && strand.Idle? && addr in links && links[addr].known
      modifies this`links, this`strand, this`locked, this`log, this`pending, this`toRecv, this`history
      ensures Valid() && strand.Idle?
      ensures history == old(history) + Teardown(addr, |old(links[addr].queue)|, |old(toRecv)|)
      ensures addr in links && !links[addr].known && links[addr].accepted == old(links[addr].accepted)
      ensures |old(links[addr].fired)| <= |links[addr].accepted|
      ensures links[addr].fired == old(links[addr].fired) + Failures(links[addr].accepted[|old(links[addr].fired)|..])
      ensures toRecv == [] && log.paired == old(log.paired) + FailedReceives(old(toRecv))
      ensures log.called == old(log.called) + FailedReceives(old(toRecv))
      ensures pending == Without(old(pending), addr)
    {
      hide Run, Step, Without, Failures, FailedReceives, Times;
      StopLink(addr);
      DrainSends(addr);
      DrainReceives(addr);
    }

    method StopLink(addr: Address)
      requires Valid() && strand.Idle? && addr in links && links[addr].known
      modifies this`links, this`strand, this`locked, this`history
      ensures Valid() && history == old(history) + [Failed(addr)] && strand == Draining(addr)
      ensures links == old(links)[addr := old(links[addr]).(stopped := true, inProgress := false)]
    {
      hide Run;
      ghost var s := Abs();
      links := links[addr := links[addr].(stopped := true, inProgress := false)];
      strand, locked, history := Draining(addr), true, history + [Failed(addr)];
      Continues(me, old(history), s, Failed(addr));
    }

    /** One round of the loop that fails the queued sends. */
    method FailFront(addr: Address)
      requires Valid() && strand == Draining(addr) && addr in links && links[addr].queue != []
      modifies this`links, this`locked, this`history
      ensures Valid() && history == old(history) + [FailSend]
      ensures addr in links && links[addr].accepted == old(links[addr].accepted)
      ensures links[addr].queue == old(links[addr].queue)[1..]
      ensures |old(links[addr].fired)| < |links[addr].accepted|
      ensures links[addr].fired == old(links[addr].fired) + Failures([links[addr].accepted[|old(links[addr].fired)|]])
    {
      hide Inv, Run;
      ghost var s := Abs();
      RunSound(me, history);
      NextToFail(s);
      var l := links[addr];
      l := l.(fired := l.fired + [Completion(l.queue[0].handler, false)]);
      links := links[addr := l.(queue := l.queue[1..])];
      locked, history := false, history + [FailSend];
      Continues(me, old(history), s, FailSend);
    }

    method DrainSends(addr: Address)
      requires Valid() && strand == Draining(addr) && addr in links
      modifies this`links, this`locked, this`history
      ensures Valid() && history == old(history) + Times(FailSend, |old(links[addr].queue)|)
      ensures addr in links && links[addr].queue == [] && links[addr].accepted == old(links[addr].accepted)
      ensures |old(links[addr].fired)| <= |links[addr].accepted|
      ensures links[addr].fired == old(links[addr].fired) + Failures(links[addr].accepted[|old(links[addr].fired)|..])
    {
      hide Run, Failures, Times, Inv;
      ghost var fired, accepted, k: nat := links[addr].fired, links[addr].accepted, 0;
      RunSound(me, history);
      LinkSizes(Abs(), addr);
      FailuresNone(accepted, |fired|);
      TimesMore(FailSend, 0);
      while links[addr].queue != []
        invariant Valid() && addr in links && k + |links[addr].queue| == |old(links[addr].queue)|
        invariant history == old(history) + Times(FailSend, k)
        invariant links[addr].accepted == accepted && |fired| <= |links[addr].fired| <= |accepted|
        invariant links[addr].fired == fired + Failures(accepted[|fired|..|links[addr].fired|])
        decreases |links[addr].queue|
      {
        ghost var n := |links[addr].fired|;
        FailFront(addr);
        FailuresMore(accepted, |fired|, n);
        Regrouped(fired, Failures(accepted[|fired|..n]), Failures([accepted[n]]));
        TimesMore(FailSend, k);
        Regrouped(old(history), Times(FailSend, k), [FailSend]);
        k := k + 1;
      }
      RunSound(me, history);
      AllFailed(Abs());
      assert accepted[|fired|..|accepted|] == accepted[|fired|..];
    }

    /** m_pending.remove_if */
    static method RemoveIf(ms: seq<Message>, dst: Address) returns (r: seq<Message>)
      ensures r == Without(ms, dst)
    {
      r := [];
      var i := 0;
      while i < |ms|
        invariant i <= |ms| && r == Without(ms[..i], dst)
      {
        assert ms[..i + 1][..i] == ms[..i];
        if ms[i].dst != dst {
          r := r + [ms[i]];
        }
        i := i + 1;
      }
      assert ms[..i] == ms;
    }

    method StartReceives(addr: Address) returns (tmp: seq<nat>)
      requires Valid() && strand == Draining(addr) && addr in links && links[addr].queue == []
      modifies this`pending, this`toRecv, this`strand, this`locked, this`history
      ensures Valid() && history == old(history) + [FailReceives] && strand == Delivering(addr, tmp)
      ensures tmp == old(toRecv) && toRecv == [] && pending == Without(old(pending), addr)
    {
      hide Run, Without;
      ghost var s := Abs();
      tmp := toRecv;
      pending := RemoveIf(pending, addr);
      toRecv := [];
      strand, locked, history := Delivering(addr, tmp), true, history + [FailReceives];
      Continues(me, old(history), s, FailReceives);
    }

    /** One round of the loop that fails the waiting receives. */
    method FailFirst(addr: Address, tmp: seq<nat>)
      requires Valid() && strand == Delivering(addr, tmp) && tmp != []
      modifies this`log, this`strand, this`locked, this`history
      ensures Valid() && history == old(history) + [FailReceive]
      ensures log.paired == old(log.paired) + FailedReceives([tmp[0]]) && strand == Delivering(addr, tmp[1..])
      ensures log.called == old(log.called) + FailedReceives([tmp[0]])
    {
      hide Run;
      ghost var s := Abs();
      log := log.Calls(Received(tmp[0], None));
      strand, locked, history := Delivering(addr, tmp[1..]), false, history + [FailReceive];
      Continues(me, old(history), s, FailReceive);
    }

    method EraseLink(addr: Address)
      requires Valid() && strand == Delivering(addr, []) && addr in links
      modifies this`links, this`strand, this`locked, this`history
      ensures Valid() && history == old(history) + [Erase] && strand.Idle?
      ensures links == old(links)[addr := old(links[addr]).(known := false, queue := [])]
    {
      hide Run;
      ghost var s := Abs();
      links := links[addr := links[addr].(known := false, queue := [])];
      strand, locked, history := Idle, false, history + [Erase];
      Continues(me, old(history), s, Erase);
    }

    method DrainReceives(addr: Address)
      requires Valid() && strand == Draining(addr) && addr in links && links[addr].queue == []
      modifies this`log, this`pending, this`toRecv, this`strand, this`locked, this`links, this`history
      ensures Valid() && strand.Idle?
      ensures history == old(history) + ([FailReceives] + Times(FailReceive, |old(toRecv)|) + [Erase])
      ensures links == old(links)[addr := old(links[addr]).(known := false, queue := [])]
      ensures toRecv == [] && log.paired == old(log.paired) + FailedReceives(old(toRecv))
      ensures log.called == old(log.called) + FailedReceives(old(toRecv))
      ensures pending == Without(old(pending), addr)
    {
      hide Run, Without, FailedReceives, Times;
      var tmp := StartReceives(addr);
      ghost var waiting, k: nat := tmp, 0;
      FailedReceivesNone(waiting);
      TimesMore(FailReceive, 0);
      while tmp != []
        invariant k <= |waiting| && tmp == waiting[k..]
        invariant log.paired == old(log.paired) + FailedReceives(waiting[..k])
        invariant log.called == old(log.called) + FailedReceives(waiting[..k])
        invariant Valid() && strand == Delivering(addr, tmp)
        invariant history == old(history) + [FailReceives] + Times(FailReceive, k)
        decreases |tmp|
        modifies this`log, this`strand, this`locked, this`history
      {
        FailFirst(addr, tmp);
        FailedReceivesMore(waiting, k);
        Regrouped(old(log.paired), FailedReceives(waiting[..k]), FailedReceives([waiting[k]]));
        Regrouped(old(log.called), FailedReceives(waiting[..k]), FailedReceives([waiting[k]]));
        TimesMore(FailReceive, k);
        Regrouped(old(history) + [FailReceives], Times(FailReceive, k), [FailReceive]);
        tmp := tmp[1..];
        assert strand == Delivering(addr, tmp);
        k := k + 1;
      }
      assert waiting[..k] == waiting;
      EraseLink(addr);
      Regrouped(old(history) + [FailReceives], Times(FailReceive, k), [Erase]);
    }
  }

  /** The completions with an error of these sends, in order. */
  function Failures(entries: seq<Entry>): seq<Completion> {
    seq(|entries|, i requires 0 <= i < |entries| => Completion(entries[i].handler, false))
  }

  lemma FailuresNone(entries: seq<Entry>, i: nat)
    requires i <= |entries|
    ensures Failures(entries[i..i]) == []
  {}

  lemma FailuresMore(entries: seq<Entry>, i: nat, j: nat)
    requires i <= j < |entries|
    ensures Failures(entries[i..j + 1]) == Failures(entries[i..j]) + Failures([entries[j]])
    ensures |Failures([entries[j]])| == 1
  {}

  function FailedReceives(ids: seq<nat>): seq<Received> {
    seq(|ids|, i requires 0 <= i < |ids| => Received(ids[i], None))
  }

  lemma FailedReceivesNone(ids: seq<nat>)
    ensures FailedReceives(ids[..0]) == []
  {}

  lemma FailedReceivesMore(ids: seq<nat>, k: nat)
    requires k < |ids|
    ensures FailedReceives(ids[..k + 1]) == FailedReceives(ids[..k]) + FailedReceives([ids[k]])
  {}

  lemma LinkSizes(s: Peer, a: Address)
    requires Inv(s) && a in s.links
    ensures |s.links[a].fired| <= |s.links[a].accepted|
  {
    LinkOf(s, a);
  }

  lemma Regrouped<T>(a: seq<T>, b: seq<T>, c: seq<T>)
    ensures a + (b + c) == a + b + c
  {}

  lemma AllFailed(s: Peer)
    requires Inv(s) && s.strand.Draining? && s.strand.addr in s.links && s.links[s.strand.addr].queue == []
    ensures |s.links[s.strand.addr].fired| == |s.links[s.strand.addr].accepted|
  {
    NothingLeft(s);
  }

  lemma NextToFail(s: Peer)
    requires Inv(s) && Enabled(s, FailSend)
    ensures var l := s.links[s.strand.addr];
            |l.fired| < |l.accepted| && l.queue[0].handler == l.accepted[|l.fired|].handler
  {
    LinkOf(s, s.strand.addr);
    var l := s.links[s.strand.addr];
    assert l.accepted[|l.fired|..][0] == l.accepted[|l.fired|];
  }

  lemma KnownLink(s: Peer, a: Address)
    requires Enabled(s, Written(a))
    ensures a in s.links
  {}

  /** A completed write of a known connection finds its send in the queue. */
  lemma QueueWaits(s: Peer, a: Address)
    requires Inv(s) && Enabled(s, Written(a)) && s.links[a].known
    ensures s.links[a].queue != []
  {
    hide LinkOk;
    LinkOf(s, a);
    WrittenKeeps(s.links[a], ModeOf(s, a));
  }
}
