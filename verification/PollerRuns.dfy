/** The poller in motion: callers that add sockets, give up or close them, wait loops, batches
    that were handed over and not processed yet, interleaved in any order. Every action is one
    critical section or one system call. */
module PollerRuns {
  import opened Bytes
  import opened Polling

  /** epoll_wait returns at most this many events at once. */
  const EVENTS_BUF := 5

  /** A wait loop calls epoll_wait, or has events and wants the mutex. */
  datatype Loop = Calling | Got(events: seq<Event>)

  /** `loops` are the wait loops that run, `batches` the announced sizes of the batches that
      were handed over, `pushers` the goroutines about to report an epoll_wait failure. */
  datatype World = World(poller: State, loops: seq<Loop>, batches: seq<nat>, pushers: nat, crashed: bool)

  datatype Action =
    | Add(unit: Unit, refused: bool)
    | WaitReturns(i: nat, events: seq<Event>)
    | WaitFails(i: nat)
    | WaitHandles(i: nat)
    | Batch(j: nat, broken: set<int>)
    | Push
    | GiveUp(fd: int)
    | CloseFd(fd: int)

  const START := World(State(false, false, [], map[], map[], map[], map[]), [], [], 0, false)

  /** The kernel reports registered sockets, each once, and only what they were registered for
      besides errors and hang-ups. */
  predicate Reportable(interest: map<int, Interest>, e: Event) {
    && e.fd in interest
    && (e.input ==> interest[e.fd] == ForInput)
    && (e.output ==> interest[e.fd] == ForOutput)
    && (e.error || e.hup || e.rdHup || e.input || e.output)
  }

  predicate Possible(w: World, a: Action) {
    && !w.crashed
    && match a
       case Add(unit, _) => unit !in w.poller.sent
       case WaitReturns(i, events) =>
         && i < |w.loops| && w.loops[i] == Calling && 0 < |events| <= EVENTS_BUF
         && (forall k :: 0 <= k < |events| ==> Reportable(w.poller.interest, events[k]))
         && (forall k, l :: 0 <= k < l < |events| ==> events[k].fd != events[l].fd)
       case WaitFails(i) => i < |w.loops| && w.loops[i] == Calling
       case WaitHandles(i) => i < |w.loops| && w.loops[i].Got?
       case Batch(j, _) => j < |w.batches|
       case Push => w.pushers > 0
       case GiveUp(_) => true
       case CloseFd(_) => true
  }

  function Without<T>(s: seq<T>, i: nat): seq<T>
    requires i < |s|
  {
    s[..i] + s[i + 1..]
  }

  function Next(w: World, a: Action): World
    requires Possible(w, a)
  {
    var s := w.poller;
    match a
    case Add(unit, refused) =>
      var spawn := ErrorOfAdd(s, unit, refused).None? && !s.polling;
      w.(poller := Added(s, unit, refused), loops := w.loops + if spawn then [Calling] else [])
    case WaitReturns(i, events) => w.(loops := w.loops[i := Got(events)])
    case WaitFails(i) =>
      w.(poller := s.(err := true), loops := Without(w.loops, i), pushers := w.pushers + 1)
    case WaitHandles(i) =>
      var events := w.loops[i].events;
      w.(poller := Noted(s, events),
         batches := w.batches + [|events|],
         loops := if |events| == |s.sockets| then Without(w.loops, i) else w.loops[i := Calling])
    case Batch(j, broken) =>
      (match Processed(s, w.batches[j], broken)
       case None => w.(crashed := true)
       case Some(t) => w.(poller := t, batches := Without(w.batches, j)))
    case Push => w.(poller := Pushed(s), pushers := w.pushers - 1)
    case GiveUp(fd) => w.(poller := s.(sockets := s.sockets - {fd}))
    case CloseFd(fd) => w.(poller := s.(interest := s.interest - {fd}))
  }

  ghost predicate IsRunFrom(w: World, run: seq<World>, actions: seq<Action>) {
    && |run| == |actions| + 1
    && run[0] == w
    && forall i :: 0 <= i < |actions| ==> Possible(run[i], actions[i]) && run[i + 1] == Next(run[i], actions[i])
  }

  ghost predicate IsRun(run: seq<World>, actions: seq<Action>) {
    IsRunFrom(START, run, actions)
  }

  ghost predicate Reachable(w: World) {
    exists run, actions :: IsRun(run, actions) && run[|actions|] == w
  }

  lemma StartIsReachable()
    ensures Reachable(START)
  {
    assert IsRun([START], []);
  }

  lemma StepReaches(w: World, a: Action)
    requires Reachable(w) && Possible(w, a)
    ensures Reachable(Next(w, a))
  {
    var run, actions :| IsRun(run, actions) && run[|actions|] == w;
    var run', actions' := run + [Next(w, a)], actions + [a];
    forall i | 0 <= i < |actions'|
      ensures Possible(run'[i], actions'[i]) && run'[i + 1] == Next(run'[i], actions'[i])
    {
      if i < |actions| {
        assert run'[i] == run[i] && run'[i + 1] == run[i + 1] && actions'[i] == actions[i];
      }
    }
    assert IsRun(run', actions');
  }

  // ---------------------------------------------------------------- the wait loop

  /** After a failure there is no loop, and the goroutine that reports it comes once. */
  predicate LoopIsSafe(w: World) {
    && |w.loops| <= 1
    && (w.loops != [] ==> w.poller.polling)
    && (w.poller.err <==> w.pushers == 1) && w.pushers <= 1
    && (w.pushers == 1 ==> Stalled(w))
  }

  /** `polling` is set, but nobody waits for events. */
  predicate Stalled(w: World) {
    w.poller.polling && w.loops == []
  }

  /** A failure was reported. */
  predicate Done(w: World) {
    Stalled(w) && w.pushers == 0
  }

  lemma StepKeepsLoop(w: World, a: Action)
    requires LoopIsSafe(w) && Possible(w, a)
    ensures LoopIsSafe(Next(w, a))
    ensures Stalled(Next(w, a)) <==> Stalled(w) || a.WaitFails?
    ensures Done(w) ==> !a.Push?
    ensures Done(w) || a.Push? ==> Done(Next(w, a))
  {
  }

  lemma {:induction false} LoopStaysSafe(run: seq<World>, actions: seq<Action>, i: nat)
    requires IsRun(run, actions) && i < |run|
    ensures LoopIsSafe(run[i])
  {
    if i > 0 {
      LoopStaysSafe(run, actions, i - 1);
      StepKeepsLoop(run[i - 1], actions[i - 1]);
    }
  }

  ghost predicate FailedBefore(actions: seq<Action>, i: nat)
    requires i <= |actions|
  {
    exists k :: 0 <= k < i && actions[k].WaitFails?
  }

  /** The flag stays set without a loop behind it - so that no Add starts a new one - exactly
      after a failed epoll_wait, for any number of sockets and whatever else happens. */
  lemma {:induction false} StalledIffWaitFailed(run: seq<World>, actions: seq<Action>, i: nat)
    requires IsRun(run, actions) && i < |run|
    ensures Stalled(run[i]) <==> FailedBefore(actions, i)
  {
    if i > 0 {
      StalledIffWaitFailed(run, actions, i - 1);
      LoopStaysSafe(run, actions, i - 1);
      StepKeepsLoop(run[i - 1], actions[i - 1]);
      assert FailedBefore(actions, i) <==> FailedBefore(actions, i - 1) || actions[i - 1].WaitFails?;
    }
  }

  // ---------------------------------------------------------------- what is sent on a channel

  /** Nothing, a result, the epoll_wait error, or that error and then a result. */
  predicate InOrder(log: seq<Result>) {
    |log| <= 2 && (|log| == 2 ==> log[0] == WaitFailed && log[1] != WaitFailed)
  }

  predicate Told(s: State, u: Unit) {
    SentTo(s, u) != [] && SentTo(s, u)[0] == WaitFailed
  }

  predicate Answered(s: State, u: Unit) {
    SentTo(s, u) != [] && SentTo(s, u)[|SentTo(s, u)| - 1] != WaitFailed
  }

  predicate LogIsSafe(w: World, u: Unit) {
    && InOrder(SentTo(w.poller, u))
    && (Pending(w.poller, u) ==> !Answered(w.poller, u))
    && (Told(w.poller, u) ==> Done(w))
  }

  ghost predicate LogsAreSafe(w: World) {
    WellFiled(w.poller) && forall u: Unit :: LogIsSafe(w, u)
  }

  /** The action is a batch that has a result for the waiting unit `u`. */
  predicate Answers(w: World, a: Action, u: Unit) {
    && a.Batch? && Possible(w, a)
    && Processed(w.poller, w.batches[a.j], a.broken).Some?
    && Hit(w.poller, Classified(w.poller.readyEvents, w.poller.sockets, a.broken), u)
  }

  /** The action tells the waiting unit `u` about a failed epoll_wait. */
  predicate Tells(w: World, a: Action, u: Unit) {
    a.Push? && Pending(w.poller, u)
  }

  /** No event is taken for a failure of epoll_wait. */
  lemma {:induction false} ResultsAreNoFailures(events: seq<Event>, sockets: map<int, Unit>, broken: set<int>)
    ensures forall fd :: fd in Classified(events, sockets, broken) ==>
              Classified(events, sockets, broken)[fd] != WaitFailed
  {
    if events != [] {
      ResultsAreNoFailures(events[..|events| - 1], sockets, broken);
    }
  }

  /** What a step from `s` to `t` does to the channel of `u`, and who waits afterwards. */
  predicate LogStep(s: State, t: State, u: Unit, r: Result, answers: bool, tells: bool) {
    && SentTo(t, u) == SentTo(s, u) + (if answers then [r] else if tells then [WaitFailed] else [])
    && r != WaitFailed && !(answers && tells)
    && (answers || tells ==> Pending(s, u))
    && (Pending(t, u) ==> (Pending(s, u) || SentTo(s, u) == []) && !answers)
  }

  lemma ProcessedChangesLog(s: State, n: nat, broken: set<int>, u: Unit) returns (r: Result)
    requires WellFiled(s) && Processed(s, n, broken).Some?
    ensures LogStep(s, Processed(s, n, broken).value, u, r,
                    Hit(s, Classified(s.readyEvents, s.sockets, broken), u), false)
  {
    var results := Classified(s.readyEvents, s.sockets, broken);
    ResultsAreNoFailures(s.readyEvents, s.sockets, broken);
    DeliveredOnce(s, results, u);
    r := if u.fd in results then results[u.fd] else Success;
  }

  lemma OthersKeepLog(w: World, a: Action, u: Unit)
    requires Possible(w, a) && !a.Batch? && !a.Push?
    ensures LogStep(w.poller, Next(w, a).poller, u, Success, false, false)
  {
  }

  /** A step adds to a channel what a batch or a push sends on it, and nothing else. */
  lemma StepChangesLog(w: World, a: Action, u: Unit) returns (r: Result)
    requires LoopIsSafe(w) && WellFiled(w.poller) && Possible(w, a)
    ensures LogStep(w.poller, Next(w, a).poller, u, r, Answers(w, a, u), Tells(w, a, u))
  {
    r := Success;
    if a.Batch? {
      if Processed(w.poller, w.batches[a.j], a.broken).Some? {
        r := ProcessedChangesLog(w.poller, w.batches[a.j], a.broken, u);
      }
    } else if a.Push? {
      PushedOnce(w.poller, u);
    } else {
      OthersKeepLog(w, a, u);
    }
  }

  lemma LogStepIsSafe(w: World, v: World, u: Unit, r: Result, answers: bool, tells: bool)
    requires LogIsSafe(w, u) && LogStep(w.poller, v.poller, u, r, answers, tells)
    requires Done(w) ==> !tells
    requires Done(w) || tells ==> Done(v)
    ensures LogIsSafe(v, u)
    ensures Told(v.poller, u) <==> Told(w.poller, u) || tells
    ensures Answered(v.poller, u) <==> Answered(w.poller, u) || answers
  {
  }

  lemma StepKeepsLog(w: World, a: Action, u: Unit)
    requires LoopIsSafe(w) && LogsAreSafe(w) && Possible(w, a)
    ensures LogIsSafe(Next(w, a), u)
    ensures Told(Next(w, a).poller, u) <==> Told(w.poller, u) || Tells(w, a, u)
    ensures Answered(Next(w, a).poller, u) <==> Answered(w.poller, u) || Answers(w, a, u)
  {
    var r := StepChangesLog(w, a, u);
    StepKeepsLoop(w, a);
    LogStepIsSafe(w, Next(w, a), u, r, Answers(w, a, u), Tells(w, a, u));
  }

  lemma StepKeepsFiles(w: World, a: Action)
    requires WellFiled(w.poller) && Possible(w, a)
    ensures WellFiled(Next(w, a).poller)
  {
  }

  lemma {:induction false} LogsStaySafe(run: seq<World>, actions: seq<Action>, i: nat)
    requires IsRun(run, actions) && i < |run|
    ensures LogsAreSafe(run[i])
  {
    if i > 0 {
      var w, a := run[i - 1], actions[i - 1];
      LoopStaysSafe(run, actions, i - 1);
      LogsStaySafe(run, actions, i - 1);
      StepKeepsFiles(w, a);
      forall u: Unit
        ensures LogIsSafe(run[i], u)
      {
        StepKeepsLog(w, a, u);
      }
    }
  }

  /** Whatever callers, kernel and scheduler do, with any number of sockets: there is at most one
      wait loop, and only while `polling` is set; a unit that waits is never replaced, and has
      got no result yet; a channel gets at most one result, and before it at most one error of
      epoll_wait. Without such an error it gets at most one message in all. */
  lemma PollerIsSafe(run: seq<World>, actions: seq<Action>, i: nat)
    requires IsRun(run, actions) && i < |run|
    ensures |run[i].loops| <= 1 && (run[i].loops != [] ==> run[i].poller.polling)
    ensures forall u: Unit :: InOrder(SentTo(run[i].poller, u))
    ensures forall u: Unit :: Pending(run[i].poller, u) ==>
              SentTo(run[i].poller, u) == [] || SentTo(run[i].poller, u) == [WaitFailed]
    ensures !FailedBefore(actions, i) ==> forall u: Unit ::
              |SentTo(run[i].poller, u)| <= 1 && (Pending(run[i].poller, u) ==> SentTo(run[i].poller, u) == [])
    ensures i < |actions| && actions[i].Add? ==>
      forall u: Unit :: Pending(run[i].poller, u) ==> Pending(run[i + 1].poller, u)
  {
    LoopStaysSafe(run, actions, i);
    LogsStaySafe(run, actions, i);
    StalledIffWaitFailed(run, actions, i);
    forall u: Unit
      ensures InOrder(SentTo(run[i].poller, u))
      ensures Pending(run[i].poller, u) ==> SentTo(run[i].poller, u) == [] || SentTo(run[i].poller, u) == [WaitFailed]
      ensures !FailedBefore(actions, i) ==>
                |SentTo(run[i].poller, u)| <= 1 && (Pending(run[i].poller, u) ==> SentTo(run[i].poller, u) == [])
    {
      SafeLog(run[i], u);
    }
  }

  lemma SafeLog(w: World, u: Unit)
    requires LogIsSafe(w, u)
    ensures Pending(w.poller, u) ==> SentTo(w.poller, u) == [] || SentTo(w.poller, u) == [WaitFailed]
    ensures !Stalled(w) ==> |SentTo(w.poller, u)| <= 1 && (Pending(w.poller, u) ==> SentTo(w.poller, u) == [])
  {
  }

  /** A run reports at most one failure of epoll_wait. */
  lemma {:induction false} OnePushPerRun(run: seq<World>, actions: seq<Action>, i: nat, j: nat)
    requires IsRun(run, actions) && i < j <= |actions| && actions[i].Push?
    ensures Done(run[j])
    ensures j < |actions| ==> !actions[j].Push?
  {
    if i + 1 < j {
      OnePushPerRun(run, actions, i, j - 1);
    }
    var w, a := run[j - 1], actions[j - 1];
    LoopStaysSafe(run, actions, j - 1);
    StepKeepsLoop(w, a);
    if j < |actions| {
      LoopStaysSafe(run, actions, j);
      StepKeepsLoop(run[j], actions[j]);
    }
  }

  ghost predicate ToldBefore(run: seq<World>, actions: seq<Action>, i: nat, u: Unit)
    requires i <= |actions| < |run|
  {
    exists k :: 0 <= k < i && Tells(run[k], actions[k], u)
  }

  ghost predicate AnsweredBefore(run: seq<World>, actions: seq<Action>, i: nat, u: Unit)
    requires i <= |actions| < |run|
  {
    exists k :: 0 <= k < i && Answers(run[k], actions[k], u)
  }

  lemma {:induction false} LogTellsHistory(run: seq<World>, actions: seq<Action>, i: nat, u: Unit)
    requires IsRun(run, actions) && i < |run|
    ensures Told(run[i].poller, u) <==> ToldBefore(run, actions, i, u)
    ensures Answered(run[i].poller, u) <==> AnsweredBefore(run, actions, i, u)
  {
    if i > 0 {
      var w, a := run[i - 1], actions[i - 1];
      LogTellsHistory(run, actions, i - 1, u);
      LoopStaysSafe(run, actions, i - 1);
      LogsStaySafe(run, actions, i - 1);
      StepKeepsLog(w, a, u);
      assert ToldBefore(run, actions, i, u) <==> ToldBefore(run, actions, i - 1, u) || Tells(w, a, u);
      assert AnsweredBefore(run, actions, i, u) <==> AnsweredBefore(run, actions, i - 1, u) || Answers(w, a, u);
    }
  }

  /** Two messages are sent to exactly those units that waited when the failure was reported and
      whose socket is in a batch all the same. The caller is gone after the first one. */
  lemma TwoMessagesIff(run: seq<World>, actions: seq<Action>, i: nat, u: Unit)
    requires IsRun(run, actions) && i < |run|
    ensures |SentTo(run[i].poller, u)| == 2
            <==> ToldBefore(run, actions, i, u) && AnsweredBefore(run, actions, i, u)
  {
    LogTellsHistory(run, actions, i, u);
    LogsStaySafe(run, actions, i);
    assert LogIsSafe(run[i], u);
  }

  function HangUp(fd: int): Event {
    Event(fd, false, true, false, false, false)
  }

  lemma HangUpCounts(fd: int, sockets: map<int, Unit>)
    ensures Classified([HangUp(fd)], sockets, {}) == map[fd := Failure({SocketHup})]
  {
    assert [HangUp(fd)][..0] == [];
    assert Classified([], sockets, {}) == map[];
    assert Reasons(HangUp(fd), false) == {SocketHup};
  }

  /** This happens to any two sockets: an event for the first one is noted, then epoll_wait
      fails and is reported before the batch is processed. */
  lemma TwoMessagesHappen(u: Unit, v: Unit) returns (w: World)
    requires u.fd != v.fd && u.kind == Connect && v.kind == Connect
    ensures Reachable(w) && SentTo(w.poller, u) == [WaitFailed, Failure({SocketHup})]
  {
    w := TwoWaiting(u, v);
    w := FailsAfterEvent(w, u);
    PushedOnce(w.poller, u);
    StepReaches(w, Push);
    w := ToldThenAnswered(Next(w, Push), u);
  }

  lemma ToldThenAnswered(w: World, u: Unit) returns (v: World)
    requires Reachable(w) && !w.crashed && w.batches == [1] && w.poller.readyEvents == [HangUp(u.fd)]
    requires WellFiled(w.poller) && Pending(w.poller, u)
    ensures Reachable(v) && SentTo(v.poller, u) == SentTo(w.poller, u) + [Failure({SocketHup})]
  {
    HangUpCounts(u.fd, w.poller.sockets);
    var results := map[u.fd := Failure({SocketHup})];
    assert |results| == 1;
    StepReaches(w, Batch(0, {}));
    DeliveredOnce(w.poller, results, u);
    v := Next(w, Batch(0, {}));
  }

  lemma TwoWaiting(u: Unit, v: Unit) returns (w: World)
    requires u.fd != v.fd && u.kind == Connect && v.kind == Connect
    ensures Reachable(w) && !w.crashed && w.loops == [Calling] && w.batches == [] && w.pushers == 0
    ensures w.poller == State(false, true, [], map[u.fd := u, v.fd := v], map[],
                              map[u.fd := ForOutput, v.fd := ForOutput], map[u := [], v := []])
  {
    StartIsReachable();
    StepReaches(START, Add(u, false));
    w := Next(START, Add(u, false));
    assert w.poller.sockets == map[u.fd := u];
    StepReaches(w, Add(v, false));
    w := Next(w, Add(v, false));
    assert w.loops == [Calling];
  }

  lemma FailsAfterEvent(w: World, u: Unit) returns (v: World)
    requires Reachable(w) && !w.crashed && w.loops == [Calling] && w.batches == [] && w.pushers == 0
    requires u.fd in w.poller.interest && w.poller.readyEvents == [] && |w.poller.sockets| == 2
    ensures Reachable(v) && !v.crashed && v.batches == [1] && v.pushers == 1
    ensures v.poller == w.poller.(err := true, readyEvents := [HangUp(u.fd)])
  {
    StepReaches(w, WaitReturns(0, [HangUp(u.fd)]));
    var w1 := Next(w, WaitReturns(0, [HangUp(u.fd)]));
    StepReaches(w1, WaitHandles(0));
    var w2 := Next(w1, WaitHandles(0));
    StepReaches(w2, WaitFails(0));
    v := Next(w2, WaitFails(0));
  }

  // ---------------------------------------------------------------- results that nobody waits for

  function KeptFor(s: State, fd: int): Option<Result> {
    if fd in s.unexpected then Some(s.unexpected[fd]) else None
  }

  /** The action is a batch that has a result for `fd` while nobody waits for it. */
  predicate Finds(w: World, a: Action, fd: int) {
    && a.Batch? && Possible(w, a)
    && Processed(w.poller, w.batches[a.j], a.broken).Some?
    && fd in Classified(w.poller.readyEvents, w.poller.sockets, a.broken) && fd !in w.poller.sockets
  }

  function Found(w: World, a: Action, fd: int): Result
    requires Finds(w, a, fd)
  {
    Classified(w.poller.readyEvents, w.poller.sockets, a.broken)[fd]
  }

  /** The action is an Add that returns what was kept for its socket. */
  predicate Reports(w: World, a: Action, fd: int) {
    a.Add? && a.unit.fd == fd && KeptFor(w.poller, fd).Some? && KeptFor(w.poller, fd).value != Success
  }

  /** A step keeps what it finds, and forgets what it reports. */
  lemma StepChangesKept(w: World, a: Action, fd: int)
    requires Possible(w, a)
    ensures KeptFor(Next(w, a).poller, fd)
         == if Finds(w, a, fd) then Some(Found(w, a, fd)) else if Reports(w, a, fd) then None else KeptFor(w.poller, fd)
    ensures Reports(w, a, fd) ==>
              && ErrorOfAdd(w.poller, a.unit, a.refused) == Some(Unexpected(KeptFor(w.poller, fd).value))
              && Next(w, a) == w.(poller := w.poller.(unexpected := w.poller.unexpected - {fd}))
  {
    if a.Add? {
      AddMeans(w.poller, a.unit, a.refused);
    } else if a.Batch? {
      BatchMeans(w.poller, w.batches[a.j], a.broken);
    }
  }

  /** What step `k` of a run does to what is kept for `fd`. */
  lemma StepOfRun(run: seq<World>, actions: seq<Action>, k: nat, fd: int)
    requires IsRun(run, actions) && k < |actions|
    ensures Finds(run[k], actions[k], fd) ==> KeptFor(run[k + 1].poller, fd) == Some(Found(run[k], actions[k], fd))
    ensures !Finds(run[k], actions[k], fd) && Reports(run[k], actions[k], fd) ==> KeptFor(run[k + 1].poller, fd) == None
    ensures !Finds(run[k], actions[k], fd) && !Reports(run[k], actions[k], fd) ==>
              KeptFor(run[k + 1].poller, fd) == KeptFor(run[k].poller, fd)
  {
    var w, a, v := run[k], actions[k], run[k + 1];
    assert Possible(w, a) && v == Next(w, a);
    StepChangesKept(w, a, fd);
  }

  /** What was kept for `fd` in the states of a run. */
  function KeptLog(run: seq<World>, fd: int): (log: seq<Option<Result>>)
    ensures |log| == |run| && forall k :: 0 <= k < |run| ==> log[k] == KeptFor(run[k].poller, fd)
  {
    seq(|run|, k requires 0 <= k < |run| => KeptFor(run[k].poller, fd))
  }

  lemma {:induction false} Unchanged<T>(log: seq<T>, i: nat, j: nat)
    requires i < j < |log| && forall k :: i < k < j ==> log[k + 1] == log[k]
    ensures log[j] == log[i + 1]
  {
    if i + 1 < j {
      Unchanged(log, i, j - 1);
      assert log[j - 1 + 1] == log[j - 1];
    }
  }

  /** What is kept stays, as long as nothing else is found and nothing is reported. */
  lemma KeptUntilReported(run: seq<World>, actions: seq<Action>, i: nat, j: nat, fd: int)
    requires IsRun(run, actions) && i < j < |run|
    requires forall k :: i < k < j ==> !Finds(run[k], actions[k], fd) && !Reports(run[k], actions[k], fd)
    ensures KeptFor(run[j].poller, fd) == KeptFor(run[i + 1].poller, fd)
  {
    var log := KeptLog(run, fd);
    forall k | i < k < j
      ensures log[k + 1] == log[k]
    {
      StepOfRun(run, actions, k, fd);
    }
    Unchanged(log, i, j);
  }

  /** The next Add for a socket returns the bad result that was last found for it, whatever
      happens in between, and does nothing else. */
  lemma NextAddReports(run: seq<World>, actions: seq<Action>, i: nat, j: nat, unit: Unit, refused: bool)
    requires IsRun(run, actions) && i < j < |actions| && actions[j] == Add(unit, refused)
    requires Finds(run[i], actions[i], unit.fd) && Found(run[i], actions[i], unit.fd) != Success
    requires forall k :: i < k < j ==> !Finds(run[k], actions[k], unit.fd)
                                       && !(actions[k].Add? && actions[k].unit.fd == unit.fd)
    ensures ErrorOfAdd(run[j].poller, unit, refused) == Some(Unexpected(Found(run[i], actions[i], unit.fd)))
    ensures run[j + 1] == run[j].(poller := run[j].poller.(unexpected := run[j].poller.unexpected - {unit.fd}))
  {
    StepOfRun(run, actions, i, unit.fd);
    KeptUntilReported(run, actions, i, j, unit.fd);
    StepChangesKept(run[j], actions[j], unit.fd);
  }

  /** Once nothing is kept, nothing is until something is found. */
  lemma {:induction false} NothingUntilFound(run: seq<World>, actions: seq<Action>, i: nat, j: nat, fd: int)
    requires IsRun(run, actions) && i <= j < |run| && KeptFor(run[i].poller, fd) == None
    requires forall k :: i <= k < j ==> !Finds(run[k], actions[k], fd)
    ensures KeptFor(run[j].poller, fd) == None
    decreases j - i
  {
    if i < j {
      StepOfRun(run, actions, i, fd);
      NothingUntilFound(run, actions, i + 1, j, fd);
    }
  }

  /** Between two Adds that return a kept result for the same socket, a batch has found one: what is
      kept is returned once. */
  lemma ReportedOnce(run: seq<World>, actions: seq<Action>, i: nat, j: nat, fd: int)
    requires IsRun(run, actions) && i < j < |actions|
    requires Reports(run[i], actions[i], fd) && Reports(run[j], actions[j], fd)
    ensures exists k :: i < k < j && Finds(run[k], actions[k], fd)
  {
    if forall k :: i < k < j ==> !Finds(run[k], actions[k], fd) {
      StepOfRun(run, actions, i, fd);
      NothingUntilFound(run, actions, i + 1, j, fd);
    }
  }
}
