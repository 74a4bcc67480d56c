/** The poller with one socket at a time, as a single connection uses it: what it guarantees,
    and exactly which actions end the guarantee. */
module OneSocket {
  import opened Polling
  import opened PollerRuns

  /** No caller gives up, epoll_wait does not fail, a socket is closed only while nobody waits
      for it and before another one is registered. */
  predicate OneAtATime(w: World, a: Action) {
    match a
    case Add(unit, _) => forall fd :: fd in w.poller.interest ==> fd == unit.fd
    case WaitFails(_) => false
    case GiveUp(_) => false
    case CloseFd(fd) => fd !in w.poller.sockets
    case _ => true
  }

  /** `run` goes on from `w` with one socket at a time. */
  ghost predicate IsQuietRun(w: World, run: seq<World>, actions: seq<Action>) {
    && IsRunFrom(w, run, actions)
    && forall k :: 0 <= k < |actions| ==> OneAtATime(run[k], actions[k])
  }

  predicate Good(r: Result) {
    r.Success? || (r.Failure? && DiffEventType !in r.reasons)
  }

  /** The unit `u` waits, alone, for what the kernel was told to report. */
  predicate Awaits(s: State, u: Unit) {
    && s.sockets == map[u.fd := u]
    && !u.kind.UnknownKind?
    && u.fd in s.interest && s.interest[u.fd] == InterestFor(u.kind)
  }

  /** An event for `u` and nothing else. */
  predicate IsFor(events: seq<Event>, s: State, u: Unit) {
    |events| == 1 && events[0].fd == u.fd && Reportable(s.interest, events[0])
  }

  predicate Idle(w: World) {
    w.poller.sockets == map[] && !w.poller.polling && w.loops == [] && w.batches == []
    && w.poller.readyEvents == []
  }

  predicate Waiting(w: World, u: Unit) {
    && Awaits(w.poller, u) && w.poller.polling && w.batches == [] && w.poller.readyEvents == []
    && |w.loops| == 1 && (w.loops[0].Got? ==> IsFor(w.loops[0].events, w.poller, u))
  }

  predicate Ready(w: World, u: Unit) {
    && Awaits(w.poller, u) && !w.poller.polling && w.loops == []
    && w.batches == [1] && IsFor(w.poller.readyEvents, w.poller, u)
  }

  ghost predicate InPhase(w: World) {
    Idle(w) || (exists u :: Waiting(w, u)) || (exists u :: Ready(w, u))
  }

  ghost predicate Settled(s: State) {
    forall u :: u in s.sent ==>
      if Pending(s, u) then s.sent[u] == [] else |s.sent[u]| == 1 && Good(s.sent[u][0])
  }

  ghost predicate Sound(w: World) {
    && !w.crashed && w.pushers == 0
    && w.poller.unexpected == map[]
    && WellFiled(w.poller)
    && (forall fd, gd :: fd in w.poller.interest && gd in w.poller.interest ==> fd == gd)
    && Settled(w.poller)
    && InPhase(w)
  }

  // ---------------------------------------------------------------- what is guaranteed

  /** An event for a socket that is waited for always means what is waited for, or an error. */
  lemma AwaitedEventCounts(s: State, u: Unit, e: Event, broken: bool)
    requires Awaits(s, u) && e.fd == u.fd && Reportable(s.interest, e)
    ensures var r := Verdict(e, KindOf(s.sockets, e.fd), broken); r.Some? && Good(r.value)
  {
  }

  lemma BatchOfOne(s: State, u: Unit, broken: set<int>) returns (r: Result)
    requires Awaits(s, u) && IsFor(s.readyEvents, s, u)
    ensures Classified(s.readyEvents, s.sockets, broken) == map[u.fd := r] && Good(r)
    ensures var rs := Reasons(s.readyEvents[0], u.fd in broken); r == if rs == {} then Success else Failure(rs)
  {
    var e := s.readyEvents[0];
    AwaitedEventCounts(s, u, e, e.fd in broken);
    assert Classified(s.readyEvents[..0], s.sockets, broken) == map[];
    r := Verdict(e, KindOf(s.sockets, e.fd), e.fd in broken).value;
  }

  lemma AddKeepsSound(w: World, unit: Unit, refused: bool)
    requires Sound(w) && Possible(w, Add(unit, refused)) && OneAtATime(w, Add(unit, refused))
    ensures Sound(Next(w, Add(unit, refused)))
  {
    var v := Next(w, Add(unit, refused));
    if ErrorOfAdd(w.poller, unit, refused).None? {
      assert Idle(w);
      assert Waiting(v, unit);
    } else {
      assert v == w;
    }
  }

  lemma LoopKeepsSound(w: World, a: Action)
    requires Sound(w) && Possible(w, a) && (a.WaitReturns? || a.WaitHandles?)
    ensures Sound(Next(w, a))
  {
    var v := Next(w, a);
    var u :| Waiting(w, u);
    if a.WaitReturns? {
      assert a.events[|a.events| - 1].fd == a.events[0].fd == u.fd;
      assert Waiting(v, u);
    } else {
      assert |w.poller.sockets| == 1;
      assert Ready(v, u);
    }
  }

  lemma BatchKeepsSound(w: World, a: Action)
    requires Sound(w) && Possible(w, a) && a.Batch?
    ensures Sound(Next(w, a))
  {
    var v := Next(w, a);
    var u :| Ready(w, u);
    var r := BatchOfOne(w.poller, u, a.broken);
    var results := map[u.fd := r];
    assert |results| == 1;
    assert v.poller == Delivered(w.poller, results).(readyEvents := []);
    NothingLeft(w.poller.sockets, results);
    forall x | x in v.poller.sent
      ensures |v.poller.sent[x]| == 1 && Good(v.poller.sent[x][0])
    {
      DeliveredOnce(w.poller, results, x);
    }
    assert Idle(v);
  }

  lemma NothingLeft<K, V, W>(sockets: map<K, V>, results: map<K, W>)
    requires sockets.Keys == results.Keys
    ensures sockets - results.Keys == map[]
    ensures (map k | k in results && k !in sockets :: results[k]) == map[]
  {
  }

  lemma CloseKeepsSound(w: World, fd: int)
    requires Sound(w) && Possible(w, CloseFd(fd)) && OneAtATime(w, CloseFd(fd))
    ensures Sound(Next(w, CloseFd(fd)))
  {
    var v := Next(w, CloseFd(fd));
    if u :| Waiting(w, u) {
      assert Waiting(v, u);
    } else if u :| Ready(w, u) {
      assert Ready(v, u);
    }
  }

  lemma StepKeepsSound(w: World, a: Action)
    requires Sound(w) && Possible(w, a) && OneAtATime(w, a)
    ensures Sound(Next(w, a))
  {
    if a.Add? {
      AddKeepsSound(w, a.unit, a.refused);
    } else if a.WaitReturns? || a.WaitHandles? {
      LoopKeepsSound(w, a);
    } else if a.Batch? {
      BatchKeepsSound(w, a);
    } else if a.CloseFd? {
      CloseKeepsSound(w, a.fd);
    }
  }

  /** With one socket at a time every state is idle, waiting or holding one batch of one event,
      whatever such state the run began in. */
  lemma {:induction false} RunsAreSound(w: World, run: seq<World>, actions: seq<Action>, i: nat)
    requires Sound(w) && IsRunFrom(w, run, actions) && i < |run|
    requires forall k :: 0 <= k < i ==> OneAtATime(run[k], actions[k])
    ensures Sound(run[i])
  {
    if i > 0 {
      RunsAreSound(w, run, actions, i - 1);
      StepKeepsSound(run[i - 1], actions[i - 1]);
    }
  }

  /** With one socket at a time, under every interleaving: the poller does not panic; an accepted
      unit has no result while it waits and exactly one afterwards, which never speaks of a
      different event type; and a wait loop runs exactly while `polling` is set, that is
      while a unit waits and its batch was not handed over. */
  lemma OneSocketRuns(run: seq<World>, actions: seq<Action>, i: nat)
    requires IsRun(run, actions) && i < |run|
    requires forall k :: 0 <= k < i ==> OneAtATime(run[k], actions[k])
    ensures !run[i].crashed
    ensures forall u :: u in run[i].poller.sent ==>
      if Pending(run[i].poller, u) then SentTo(run[i].poller, u) == []
      else exists r :: Good(r) && SentTo(run[i].poller, u) == [r]
    ensures run[i].poller.polling <==> |run[i].loops| == 1
    ensures run[i].poller.polling <==> run[i].poller.sockets != map[] && run[i].batches == []
  {
    RunsAreSound(START, run, actions, i);
    var s := run[i].poller;
    forall u | u in s.sent && !Pending(s, u)
      ensures exists r :: Good(r) && SentTo(s, u) == [r]
    {
      assert Good(s.sent[u][0]) && SentTo(s, u) == [s.sent[u][0]];
    }
    if u :| Waiting(run[i], u) {
      assert u.fd in s.sockets;
    }
  }

  /** A processed batch answers the one unit that waited, and nobody waits after it. The answer
      is success exactly if the noted event carries no error and SO_ERROR could be read. */
  lemma BatchAnswersItsUnit(run: seq<World>, actions: seq<Action>, i: nat) returns (u: Unit, e: Event)
    requires IsRun(run, actions) && i < |actions| && actions[i].Batch?
    requires forall k :: 0 <= k < i ==> OneAtATime(run[k], actions[k])
    ensures Pending(run[i].poller, u) && run[i].poller.readyEvents == [e] && e.fd == u.fd
    ensures SentTo(run[i + 1].poller, u)
         == [var rs := Reasons(e, e.fd in actions[i].broken); if rs == {} then Success else Failure(rs)]
    ensures run[i + 1].poller.sockets == map[]
  {
    RunsAreSound(START, run, actions, i);
    var s := run[i].poller;
    u :| Ready(run[i], u);
    e := s.readyEvents[0];
    var r := BatchOfOne(s, u, actions[i].broken);
    var results := map[u.fd := r];
    assert |results| == 1;
    assert Possible(run[i], actions[i]) && run[i + 1].poller == Delivered(s, results).(readyEvents := []);
    DeliveredOnce(s, results, u);
    NothingLeft(s.sockets, results);
  }

  // ---------------------------------------------------------------- what ends the guarantee

  /** Without anything unusual happening after `w`, the poller may panic. */
  ghost predicate CanPanic(w: World) {
    exists run: seq<World>, actions :: IsQuietRun(w, run, actions) && run[|actions|].crashed
  }

  lemma PanicsNow(w: World)
    requires w.crashed
    ensures CanPanic(w)
  {
    assert IsQuietRun(w, [w], []);
  }

  lemma PanicsLater(w: World, a: Action)
    requires Possible(w, a) && OneAtATime(w, a) && CanPanic(Next(w, a))
    ensures CanPanic(w)
  {
    var run: seq<World>, actions :| IsQuietRun(Next(w, a), run, actions) && run[|actions|].crashed;
    var run', actions' := [w] + run, [a] + actions;
    forall i | 0 <= i < |actions'|
      ensures Possible(run'[i], actions'[i]) && run'[i + 1] == Next(run'[i], actions'[i])
      ensures OneAtATime(run'[i], actions'[i])
    {
      if i > 0 {
        assert run'[i] == run[i - 1] && run'[i + 1] == run[i] && actions'[i] == actions[i - 1];
      }
    }
    assert IsQuietRun(w, run', actions') && run'[|actions'|] == run[|actions|];
  }

  lemma SoundCannotPanic(w: World)
    requires Sound(w)
    ensures !CanPanic(w)
  {
    forall run: seq<World>, actions | IsQuietRun(w, run, actions)
      ensures !run[|actions|].crashed
    {
      RunsAreSound(w, run, actions, |actions|);
    }
  }

  /** Two events of one socket are a single result. */
  lemma SameSocketTwice(e: Event, fd: int, sockets: map<int, Unit>)
    requires e.fd == fd
    ensures |Classified([e, HangUp(fd)], sockets, {})| == 1
  {
    var es := [e, HangUp(fd)];
    assert es[..1] == [e] && [e][..0] == [];
    assert Classified([], sockets, {}) == map[];
    assert Reasons(HangUp(fd), false) == {SocketHup};
    assert Classified(es, sockets, {}) == map[fd := Failure({SocketHup})];
    assert |map[fd := Failure({SocketHup})]| == 1;
  }

  /** The first of two batches of one event takes both events, and the second one is empty. */
  lemma SecondBatchPanics(w: World, e: Event)
    requires !w.crashed && w.batches == [1, 1] && w.poller.readyEvents == [e, HangUp(e.fd)]
    ensures CanPanic(w)
  {
    SameSocketTwice(e, e.fd, w.poller.sockets);
    var v := Next(w, Batch(0, {}));
    assert v.poller.readyEvents == [] && v.batches == [1] && !v.crashed;
    PanicsNow(Next(v, Batch(0, {})));
    PanicsLater(v, Batch(0, {}));
    PanicsLater(w, Batch(0, {}));
  }

  /** A loop that runs on while a batch waits to be processed notes the same socket again. */
  lemma LoopWithBatchPanics(w: World, e: Event)
    requires !w.crashed && w.loops == [Calling] && w.batches == [1] && w.poller.readyEvents == [e]
    requires e.fd in w.poller.interest
    ensures CanPanic(w)
  {
    var a := WaitReturns(0, [HangUp(e.fd)]);
    var v := Next(w, a);
    SecondBatchPanics(Next(v, WaitHandles(0)), e);
    PanicsLater(v, WaitHandles(0));
    PanicsLater(w, a);
  }

  /** So does a loop that finds more or fewer sockets waiting than it has events. */
  lemma LoopRunsOn(w: World, e: Event)
    requires !w.crashed && w.loops == [Got([e])] && w.batches == [] && w.poller.readyEvents == []
    requires e.fd in w.poller.interest && |w.poller.sockets| != 1
    ensures CanPanic(w)
  {
    LoopWithBatchPanics(Next(w, WaitHandles(0)), e);
    PanicsLater(w, WaitHandles(0));
  }

  lemma LoopWithoutBatchPanics(w: World, fd: int)
    requires !w.crashed && w.loops == [Calling] && w.batches == [] && w.poller.readyEvents == []
    requires fd in w.poller.interest && |w.poller.sockets| != 1
    ensures CanPanic(w)
  {
    var a := WaitReturns(0, [HangUp(fd)]);
    LoopRunsOn(Next(w, a), HangUp(fd));
    PanicsLater(w, a);
  }

  /** A channel that was not used yet. */
  lemma FreshChannel(us: set<Unit>) returns (n: nat)
    ensures forall u :: u in us ==> u.chan < n
    decreases us
  {
    n := 0;
    if us != {} {
      var u :| u in us;
      var m := FreshChannel(us - {u});
      n := if u.chan < m then m else u.chan + 1;
      assert forall v :: v in us ==> v == u || v in us - {u};
    }
  }

  lemma GivingUpWhileWaiting(w: World, u: Unit)
    requires Sound(w) && Waiting(w, u)
    ensures CanPanic(Next(w, GiveUp(u.fd)))
  {
    var v := Next(w, GiveUp(u.fd));
    assert v.poller.sockets == map[];
    if w.loops[0].Got? {
      assert w.loops[0].events == [w.loops[0].events[0]];
      LoopRunsOn(v, w.loops[0].events[0]);
    } else {
      LoopWithoutBatchPanics(v, u.fd);
    }
  }

  lemma GivingUpWithBatch(w: World, u: Unit)
    requires Sound(w) && Ready(w, u)
    ensures CanPanic(Next(w, GiveUp(u.fd)))
  {
    var v := Next(w, GiveUp(u.fd));
    assert v.poller.sockets == map[];
    var n := FreshChannel(v.poller.sent.Keys);
    var a := Add(Unit(u.fd, Outcome, n), false);
    assert ErrorOfAdd(v.poller, a.unit, false).None?;
    LoopWithBatchPanics(Next(v, a), w.poller.readyEvents[0]);
    PanicsLater(v, a);
  }

  /** After any run with one socket at a time, a caller that gives up makes a panic possible if
      and only if it waits: whenever a waiting caller gives up, it is the wrong moment. */
  lemma GivingUpCanPanicIff(run: seq<World>, actions: seq<Action>, i: nat, fd: int)
    requires IsRun(run, actions) && i < |run|
    requires forall k :: 0 <= k < i ==> OneAtATime(run[k], actions[k])
    ensures Possible(run[i], GiveUp(fd))
    ensures CanPanic(Next(run[i], GiveUp(fd))) <==> fd in run[i].poller.sockets
  {
    RunsAreSound(START, run, actions, i);
    var w := run[i];
    if fd !in w.poller.sockets {
      assert w.poller.sockets - {fd} == w.poller.sockets;
      assert Next(w, GiveUp(fd)) == w;
      SoundCannotPanic(w);
    } else if u :| Waiting(w, u) {
      GivingUpWhileWaiting(w, u);
    } else {
      var u :| Ready(w, u);
      GivingUpWithBatch(w, u);
    }
  }

  lemma SecondUnit(w: World, u: Unit, v: Unit)
    requires Sound(w) && (Waiting(w, u) || Ready(w, u))
    requires Possible(w, Add(v, false)) && ErrorOfAdd(w.poller, v, false).None?
    ensures CanPanic(Next(w, Add(v, false)))
  {
    var w' := Next(w, Add(v, false));
    assert w'.poller.sockets == map[u.fd := u, v.fd := v] && |w'.poller.sockets| == 2;
    if Ready(w, u) {
      LoopWithBatchPanics(w', w.poller.readyEvents[0]);
    } else if w.loops[0].Got? {
      assert w.loops[0].events == [w.loops[0].events[0]];
      LoopRunsOn(w', w.loops[0].events[0]);
    } else {
      LoopWithoutBatchPanics(w', u.fd);
    }
  }

  /** Three events of two sockets are two results. */
  lemma TwoSocketsThreeEvents(a: int, b: int, sockets: map<int, Unit>)
    requires a != b
    ensures |Classified([HangUp(a), HangUp(b), HangUp(a)], sockets, {})| == 2
  {
    var es := [HangUp(a), HangUp(b), HangUp(a)];
    assert es[..2] == [HangUp(a), HangUp(b)] && [HangUp(a), HangUp(b)][..1] == [HangUp(a)] && [HangUp(a)][..0] == [];
    var r := Failure({SocketHup});
    assert Reasons(HangUp(a), false) == Reasons(HangUp(b), false) == {SocketHup};
    assert Classified([], sockets, {}) == map[];
    assert Classified([HangUp(a), HangUp(b)], sockets, {}) == map[a := r, b := r];
    assert Classified(es, sockets, {}) == map[a := r, b := r];
    assert |map[a := r, b := r]| == 2;
  }

  /** Here a batch of two events takes the one of the batch behind it, too. */
  lemma SmallerBatchPanics(w: World, a: int, b: int)
    requires !w.crashed && w.batches == [2, 1] && a != b
    requires w.poller.readyEvents == [HangUp(a), HangUp(b), HangUp(a)]
    ensures CanPanic(w)
  {
    TwoSocketsThreeEvents(a, b, w.poller.sockets);
    var v := Next(w, Batch(0, {}));
    assert v.poller.readyEvents == [] && v.batches == [1] && !v.crashed;
    PanicsNow(Next(v, Batch(0, {})));
    PanicsLater(v, Batch(0, {}));
    PanicsLater(w, Batch(0, {}));
  }

  /** Nobody waits for socket `a`, but it is still registered, and ready just like `b`. */
  lemma IdleSocketPanics(w: World, a: int, b: int)
    requires !w.crashed && w.loops == [Calling] && w.batches == [] && w.poller.readyEvents == []
    requires |w.poller.sockets| == 1 && a != b && a in w.poller.interest && b in w.poller.interest
    ensures CanPanic(w)
  {
    var both, one := WaitReturns(0, [HangUp(a), HangUp(b)]), WaitReturns(0, [HangUp(a)]);
    var v := Next(w, both);
    var x := Next(v, WaitHandles(0));
    assert x.loops == [Calling] && x.batches == [2] && x.poller.readyEvents == [HangUp(a), HangUp(b)];
    var y := Next(x, one);
    SmallerBatchPanics(Next(y, WaitHandles(0)), a, b);
    PanicsLater(y, WaitHandles(0));
    PanicsLater(x, one);
    PanicsLater(v, WaitHandles(0));
    PanicsLater(w, both);
  }

  /** After any run with one socket at a time, an Add makes a panic possible if and only if it is
      accepted and another socket is registered, whether a unit waits for that one or not, and
      even if nobody ever gives up: the poller is not safe for two sockets. */
  lemma SecondSocketCanPanicIff(run: seq<World>, actions: seq<Action>, i: nat, v: Unit, refused: bool)
    requires IsRun(run, actions) && i < |run|
    requires forall k :: 0 <= k < i ==> OneAtATime(run[k], actions[k])
    requires v !in run[i].poller.sent
    ensures Possible(run[i], Add(v, refused))
    ensures CanPanic(Next(run[i], Add(v, refused))) <==>
              ErrorOfAdd(run[i].poller, v, refused).None? && !OneAtATime(run[i], Add(v, refused))
  {
    RunsAreSound(START, run, actions, i);
    var w := run[i];
    var w' := Next(w, Add(v, refused));
    if ErrorOfAdd(w.poller, v, refused).Some? {
      assert w' == w;
      SoundCannotPanic(w);
    } else if OneAtATime(w, Add(v, refused)) {
      AddKeepsSound(w, v, refused);
      SoundCannotPanic(w');
    } else {
      assert w' == Next(w, Add(v, false));
      AcceptedSecondSocket(w, v);
    }
  }

  lemma AcceptedSecondSocket(w: World, v: Unit)
    requires Sound(w) && Possible(w, Add(v, false)) && !OneAtATime(w, Add(v, false))
    requires ErrorOfAdd(w.poller, v, false).None?
    ensures CanPanic(Next(w, Add(v, false)))
  {
    if Idle(w) {
      var a :| a in w.poller.interest && a != v.fd;
      var w' := Next(w, Add(v, false));
      assert w'.poller.sockets == map[v.fd := v] && |w'.poller.sockets| == 1;
      IdleSocketPanics(w', a, v.fd);
    } else if u :| Waiting(w, u) {
      SecondUnit(w, u, v);
    } else {
      var u :| Ready(w, u);
      SecondUnit(w, u, v);
    }
  }

  // ---------------------------------------------------------------- closing

  /** A batch of one event that finds the event of another socket as well. */
  lemma LoopFindsTwo(w: World, e: Event, fd: int)
    requires !w.crashed && w.loops == [Calling] && w.batches == [1] && w.poller.readyEvents == [e]
    requires e.error || e.hup || e.rdHup || e.input || e.output
    requires fd in w.poller.interest && fd != e.fd
    ensures CanPanic(w)
  {
    var a := WaitReturns(0, [HangUp(fd)]);
    var v := Next(w, a);
    var x := Next(v, WaitHandles(0));
    assert x.batches == [1, 1] && x.poller.readyEvents == [e, HangUp(fd)];
    DifferentSockets(e, fd, x.poller.sockets);
    PanicsNow(Next(x, Batch(0, {})));
    PanicsLater(x, Batch(0, {}));
    PanicsLater(v, WaitHandles(0));
    PanicsLater(w, a);
  }

  lemma DifferentSockets(e: Event, fd: int, sockets: map<int, Unit>)
    requires e.error || e.hup || e.rdHup || e.input || e.output
    requires fd != e.fd
    ensures |Classified([e, HangUp(fd)], sockets, {})| == 2
  {
    var es := [e, HangUp(fd)];
    var r := Verdict(e, KindOf(sockets, e.fd), false);
    assert es[..1] == [e] && [e][..0] == [];
    assert Classified([], sockets, {}) == map[];
    assert r.Some?;
    assert Classified([e], sockets, {}) == map[e.fd := r.value];
    assert Reasons(HangUp(fd), false) == {SocketHup};
    assert Classified(es, sockets, {}) == map[e.fd := r.value, fd := Failure({SocketHup})];
    assert |map[e.fd := r.value, fd := Failure({SocketHup})]| == 2;
  }

  /** The socket of a waiting unit is closed, and another one is registered instead. */
  lemma ReplacedSocketPanics(w: World, u: Unit, v: Unit)
    requires Sound(w) && (Waiting(w, u) || Ready(w, u))
    requires v !in w.poller.sent && v.fd != u.fd && v.kind == Connect
    ensures CanPanic(Next(w, CloseFd(u.fd)))
  {
    var closed := Next(w, CloseFd(u.fd));
    var a := Add(v, false);
    assert ErrorOfAdd(closed.poller, v, false).None?;
    var x := Next(closed, a);
    assert x.poller.sockets == map[u.fd := u, v.fd := v] && |x.poller.sockets| == 2;
    if Ready(w, u) {
      LoopFindsTwo(x, w.poller.readyEvents[0], v.fd);
    } else if w.loops[0].Got? {
      assert w.loops[0].events == [w.loops[0].events[0]];
      LoopFindsTwo(Next(x, WaitHandles(0)), w.loops[0].events[0], v.fd);
      PanicsLater(x, WaitHandles(0));
    } else {
      LoopWithoutBatchPanics(x, v.fd);
    }
    PanicsLater(closed, a);
  }

  /** After any run with one socket at a time, closing a socket makes a panic possible if and only
      if a unit waits for it. */
  lemma ClosingCanPanicIff(run: seq<World>, actions: seq<Action>, i: nat, fd: int)
    requires IsRun(run, actions) && i < |run|
    requires forall k :: 0 <= k < i ==> OneAtATime(run[k], actions[k])
    ensures Possible(run[i], CloseFd(fd))
    ensures CanPanic(Next(run[i], CloseFd(fd))) <==> fd in run[i].poller.sockets
  {
    RunsAreSound(START, run, actions, i);
    var w := run[i];
    if fd !in w.poller.sockets {
      CloseKeepsSound(w, fd);
      SoundCannotPanic(Next(w, CloseFd(fd)));
    } else {
      var n := FreshChannel(w.poller.sent.Keys);
      var v := Unit(fd + 1, Connect, n);
      if u :| Waiting(w, u) {
        ReplacedSocketPanics(w, u, v);
      } else {
        var u :| Ready(w, u);
        ReplacedSocketPanics(w, u, v);
      }
    }
  }

  // ---------------------------------------------------------------- failing

  lemma {:induction false} StalledStays(w: World, run: seq<World>, actions: seq<Action>, i: nat)
    requires IsRunFrom(w, run, actions) && i < |run|
    requires Stalled(w) && w.batches == [] && !w.crashed
    ensures Stalled(run[i]) && run[i].batches == [] && !run[i].crashed
  {
    if i > 0 {
      StalledStays(w, run, actions, i - 1);
    }
  }

  /** A failed epoll_wait leaves the poller useless, but it does not make it panic. */
  lemma FailingCannotPanic(w: World, k: nat)
    requires Sound(w) && Possible(w, WaitFails(k))
    ensures !CanPanic(Next(w, WaitFails(k)))
  {
    var v := Next(w, WaitFails(k));
    forall run: seq<World>, actions | IsQuietRun(v, run, actions)
      ensures !run[|actions|].crashed
    {
      StalledStays(v, run, actions, |actions|);
    }
  }

  /** What ends the guarantee, and what does not: after any run with one socket at a time, exactly
      these actions make it possible that the poller panics, without anything unusual
      happening afterwards. */
  lemma CanPanicIff(run: seq<World>, actions: seq<Action>, i: nat, a: Action)
    requires IsRun(run, actions) && i < |run| && Possible(run[i], a)
    requires forall k :: 0 <= k < i ==> OneAtATime(run[k], actions[k])
    ensures CanPanic(Next(run[i], a)) <==>
      match a
      case Add(v, refused) => ErrorOfAdd(run[i].poller, v, refused).None? && !OneAtATime(run[i], a)
      case GiveUp(fd) => fd in run[i].poller.sockets
      case CloseFd(fd) => fd in run[i].poller.sockets
      case _ => false
  {
    RunsAreSound(START, run, actions, i);
    if a.Add? {
      SecondSocketCanPanicIff(run, actions, i, a.unit, a.refused);
    } else if a.GiveUp? {
      GivingUpCanPanicIff(run, actions, i, a.fd);
    } else if a.CloseFd? {
      ClosingCanPanicIff(run, actions, i, a.fd);
    } else if a.WaitFails? {
      FailingCannotPanic(run[i], a.i);
    } else {
      StepKeepsSound(run[i], a);
      SoundCannotPanic(Next(run[i], a));
    }
  }
}
