/** The poller's data and what its critical sections do with them. The class Epoll is proved to
    compute these functions; PollerRuns interleaves them. */
module Polling {
  import opened Bytes

  datatype Kind = Connect | Income | Outcome | UnknownKind(name: int)

  /** Something to wait for. `chan` identifies the channel made for the result. */
  datatype Unit = Unit(fd: int, kind: Kind, chan: nat)

  /** A ready socket with the flags reported for it. */
  datatype Event = Event(fd: int, error: bool, hup: bool, rdHup: bool, input: bool, output: bool)

  datatype Reason = SockOptError | SocketEvent | SocketHup | SocketRdHup | DiffEventType

  /** What a waiting caller receives: nil, an error made of one or more reasons, or the error
      of a failed epoll_wait. */
  datatype Result = Success | Failure(reasons: set<Reason>) | WaitFailed

  datatype AddError = Unexpected(result: Result) | AlreadyAdded | NotAdded | UnknownEventType | CtlFailed

  /** What the kernel reports for a registered socket, apart from errors and hang-ups. */
  datatype Interest = ForInput | ForOutput

  /** `err` tells whether the error of a failed epoll_wait is stored. `interest` is the kernel's
      interest list. `sent` holds, for every unit that was ever accepted, what has been sent on
      its channel, in order. */
  datatype State = State(
    err: bool,
    polling: bool,
    readyEvents: seq<Event>,
    sockets: map<int, Unit>,
    unexpected: map<int, Result>,
    interest: map<int, Interest>,
    sent: map<Unit, seq<Result>>)

  // ---------------------------------------------------------------- Add

  /** The epoll_ctl call that a unit asks for: connect registers a socket, the other kinds
      change a registration. `refused` stands for any other failure of the call. */
  function Control(interest: map<int, Interest>, unit: Unit, refused: bool): Option<AddError> {
    match unit.kind
    case UnknownKind(_) => Some(UnknownEventType)
    case Connect =>
      if unit.fd in interest then Some(AlreadyAdded) else if refused then Some(CtlFailed) else None
    case _ =>
      if unit.fd !in interest then Some(NotAdded) else if refused then Some(CtlFailed) else None
  }

  function InterestFor(kind: Kind): Interest {
    if kind == Income then ForInput else ForOutput
  }

  function ErrorOfAdd(s: State, unit: Unit, refused: bool): Option<AddError> {
    if unit.fd in s.unexpected && s.unexpected[unit.fd] != Success then Some(Unexpected(s.unexpected[unit.fd]))
    else if unit.fd in s.sockets then Some(AlreadyAdded)
    else Control(s.interest, unit, refused)
  }

  function Added(s: State, unit: Unit, refused: bool): State {
    match ErrorOfAdd(s, unit, refused)
    case Some(Unexpected(_)) => s.(unexpected := s.unexpected - {unit.fd})
    case Some(_) => s
    case None =>
      s.(sockets := s.sockets[unit.fd := unit],
         interest := s.interest[unit.fd := InterestFor(unit.kind)],
         sent := s.sent[unit := if unit in s.sent then s.sent[unit] else []],
         polling := true)
  }

  // ---------------------------------------------------------------- processEvents

  /** The result for one event, given the kind of event that is waited for on its socket. None:
      the event carries no flag that the poller looks at. */
  function Verdict(e: Event, kind: Option<Kind>, broken: bool): Option<Result> {
    var reasons := Reasons(e, broken);
    if reasons != {} then Some(Failure(reasons))
    else if e.input && kind == Some(Income) then Some(Success)
    else if e.output && (kind == Some(Outcome) || kind == Some(Connect)) then Some(Success)
    else if e.input || e.output then Some(Failure({DiffEventType}))
    else None
  }

  function Reasons(e: Event, broken: bool): set<Reason> {
    (if broken then {SockOptError} else {}) + (if e.error then {SocketEvent} else {})
    + (if e.hup then {SocketHup} else {}) + (if e.rdHup then {SocketRdHup} else {})
  }

  function KindOf(sockets: map<int, Unit>, fd: int): Option<Kind> {
    if fd in sockets then Some(sockets[fd].kind) else None
  }

  /** The results of a batch, the last event of a socket counting. `broken` are the sockets
      whose SO_ERROR cannot be read. */
  function Classified(events: seq<Event>, sockets: map<int, Unit>, broken: set<int>): map<int, Result> {
    if events == [] then map[]
    else
      var before := Classified(events[..|events| - 1], sockets, broken);
      var e := events[|events| - 1];
      match Verdict(e, KindOf(sockets, e.fd), e.fd in broken)
      case None => before
      case Some(r) => before[e.fd := r]
  }

  function SentTo(s: State, unit: Unit): seq<Result> {
    if unit in s.sent then s.sent[unit] else []
  }

  predicate Pending(s: State, unit: Unit) {
    unit.fd in s.sockets && s.sockets[unit.fd] == unit
  }

  /** `unit` is waited for, and the batch has a result for it. */
  predicate Hit(s: State, results: map<int, Result>, unit: Unit) {
    unit.fd in results && Pending(s, unit)
  }

  /** Every result goes to the waiting unit, or is kept as unexpected. */
  function Delivered(s: State, results: map<int, Result>): State {
    s.(sockets := s.sockets - results.Keys,
       unexpected := s.unexpected + Unclaimed(s.sockets, results),
       sent := SentAfter(s, results))
  }

  function Unclaimed(sockets: map<int, Unit>, results: map<int, Result>): map<int, Result> {
    map fd | fd in results && fd !in sockets :: results[fd]
  }

  function SentAfter(s: State, results: map<int, Result>): map<Unit, seq<Result>> {
    map u | u in s.sent :: if Hit(s, results, u) then s.sent[u] + [results[u.fd]] else s.sent[u]
  }

  /** None: the batch is not of the announced size, and the poller panics. */
  function Processed(s: State, n: nat, broken: set<int>): Option<State> {
    var results := Classified(s.readyEvents, s.sockets, broken);
    if |results| != n then None else Some(Delivered(s, results).(readyEvents := []))
  }

  // ---------------------------------------------------------------- pushError

  /** The stored error goes to the units that wait on the sockets `fds`. They go on waiting. */
  function PushedTo(s: State, fds: set<int>): State {
    s.(err := false, sent := SentAfterPush(s, fds))
  }

  function SentAfterPush(s: State, fds: set<int>): map<Unit, seq<Result>> {
    map u | u in s.sent ::
      if Pending(s, u) && u.fd in fds then s.sent[u] + [Stored(s)] else s.sent[u]
  }

  /** What is sent when no error is stored is nil. */
  function Stored(s: State): Result {
    if s.err then WaitFailed else Success
  }

  function Pushed(s: State): State {
    PushedTo(s, s.sockets.Keys)
  }

  // ---------------------------------------------------------------- wait

  /** A wait loop that got events hands them over, and ends if they are as many as the sockets
      that are waited for. */
  function Noted(s: State, events: seq<Event>): State {
    s.(readyEvents := s.readyEvents + events,
       polling := s.polling && |events| != |s.sockets|)
  }

  /** Units are filed under their sockets, and all of them have a channel. */
  ghost predicate WellFiled(s: State) {
    forall fd :: fd in s.sockets ==> s.sockets[fd].fd == fd && s.sockets[fd] in s.sent
  }

  // ---------------------------------------------------------------- what these functions mean

  /** What an event says, flag by flag. */
  lemma VerdictMeans(e: Event, kind: Option<Kind>, broken: bool)
    ensures var r := Verdict(e, kind, broken);
      if broken || e.error || e.hup || e.rdHup then
        && r.Some? && r.value.Failure?
        && (SockOptError in r.value.reasons <==> broken)
        && (SocketEvent in r.value.reasons <==> e.error)
        && (SocketHup in r.value.reasons <==> e.hup)
        && (SocketRdHup in r.value.reasons <==> e.rdHup)
        && DiffEventType !in r.value.reasons
      else if (e.input && kind == Some(Income)) || (e.output && (kind == Some(Outcome) || kind == Some(Connect)))
      then r == Some(Success)
      else if e.input || e.output then r == Some(Failure({DiffEventType}))
      else r == None
  {
    if broken {
      assert SockOptError in Reasons(e, broken);
    } else if e.error {
      assert SocketEvent in Reasons(e, broken);
    } else if e.hup {
      assert SocketHup in Reasons(e, broken);
    } else if e.rdHup {
      assert SocketRdHup in Reasons(e, broken);
    }
  }

  predicate Tells(e: Event, sockets: map<int, Unit>, broken: set<int>) {
    Verdict(e, KindOf(sockets, e.fd), e.fd in broken).Some?
  }

  /** The last telling event of a socket gives its result. */
  lemma {:induction false} LastEventCounts(events: seq<Event>, sockets: map<int, Unit>, broken: set<int>, i: nat)
    requires i < |events| && Tells(events[i], sockets, broken)
    requires forall j :: i < j < |events| && events[j].fd == events[i].fd ==> !Tells(events[j], sockets, broken)
    ensures var results, e := Classified(events, sockets, broken), events[i];
      && e.fd in results
      && Some(results[e.fd]) == Verdict(e, if e.fd in sockets then Some(sockets[e.fd].kind) else None, e.fd in broken)
    decreases |events|
  {
    var n := |events| - 1;
    if i < n {
      assert events[..n][i] == events[i] && forall j :: 0 <= j < n ==> events[..n][j] == events[j];
      LastEventCounts(events[..n], sockets, broken, i);
      assert events[n].fd == events[i].fd ==> !Tells(events[n], sockets, broken);
    }
  }

  /** A socket without a telling event has no result. */
  lemma {:induction false} NoEventNoResult(events: seq<Event>, sockets: map<int, Unit>, broken: set<int>, fd: int)
    requires forall j :: 0 <= j < |events| && events[j].fd == fd ==> !Tells(events[j], sockets, broken)
    ensures fd !in Classified(events, sockets, broken)
    decreases |events|
  {
    if events != [] {
      var n := |events| - 1;
      assert forall j :: 0 <= j < n ==> events[..n][j] == events[j];
      NoEventNoResult(events[..n], sockets, broken, fd);
      assert events[n].fd == fd ==> !Tells(events[n], sockets, broken);
    }
  }

  /** What Add answers and does, case by case. */
  lemma AddMeans(s: State, unit: Unit, refused: bool)
    ensures var err, t := ErrorOfAdd(s, unit, refused), Added(s, unit, refused);
      var fd := unit.fd;
      if fd in s.unexpected && s.unexpected[fd] != Success then
        err == Some(Unexpected(s.unexpected[fd])) && t == s.(unexpected := s.unexpected - {fd})
      else if fd in s.sockets then err == Some(AlreadyAdded) && t == s
      else if unit.kind.UnknownKind? then err == Some(UnknownEventType) && t == s
      else if unit.kind == Connect && fd in s.interest then err == Some(AlreadyAdded) && t == s
      else if unit.kind != Connect && fd !in s.interest then err == Some(NotAdded) && t == s
      else if refused then err == Some(CtlFailed) && t == s
      else
        && err == None && t.polling
        && t.sockets == s.sockets[fd := unit]
        && t.interest == s.interest[fd := if unit.kind == Income then ForInput else ForOutput]
        && SentTo(t, unit) == SentTo(s, unit) && unit in t.sent
        && t.unexpected == s.unexpected && t.readyEvents == s.readyEvents && t.err == s.err
  {
  }

  /** What a batch leaves behind, besides what it sends: no noted events, and the results that
      nobody waits for. */
  lemma BatchMeans(s: State, n: nat, broken: set<int>)
    ensures var results := Classified(s.readyEvents, s.sockets, broken);
      match Processed(s, n, broken)
      case None => |results| != n
      case Some(t) =>
        && |results| == n && t.readyEvents == []
        && t.polling == s.polling && t.err == s.err && t.interest == s.interest
        && (forall fd :: fd in t.sockets <==> fd in s.sockets && fd !in results)
        && (forall fd :: fd in t.unexpected <==> fd in s.unexpected || (fd in results && fd !in s.sockets))
        && (forall fd :: fd in t.unexpected ==>
              t.unexpected[fd] == if fd in results && fd !in s.sockets then results[fd] else s.unexpected[fd])
  {
  }

  /** A bad result that nobody waits for is kept for the next Add of its socket: that one returns it
      and does nothing else, and no Add after it returns it again. */
  lemma KeptIsReported(s: State, results: map<int, Result>, unit: Unit, refused: bool, next: Unit, refused': bool)
    requires unit.fd in results && unit.fd !in s.sockets && results[unit.fd] != Success && next.fd == unit.fd
    ensures var t := Delivered(s, results);
      var v := Added(t, unit, refused);
      && ErrorOfAdd(t, unit, refused) == Some(Unexpected(results[unit.fd]))
      && v.sockets == t.sockets && v.interest == t.interest && v.polling == t.polling && v.sent == t.sent
      && (ErrorOfAdd(v, next, refused').Some? ==> !ErrorOfAdd(v, next, refused').value.Unexpected?)
  {
    AddMeans(Delivered(s, results), unit, refused);
  }

  /** What Add accepted stays until its result is sent or its caller gives up: another Add for
      the same socket changes nothing about it. */
  lemma AddKeepsPendingUnits(s: State, unit: Unit, refused: bool, fd: int)
    requires fd in s.sockets
    ensures fd in Added(s, unit, refused).sockets && Added(s, unit, refused).sockets[fd] == s.sockets[fd]
    ensures unit.fd == fd ==> ErrorOfAdd(s, unit, refused).Some?
  {
  }

  /** A batch sends each result once: the channel of a unit that was waited for gets exactly the
      result for its socket, every other channel gets nothing, and no unit stays that got one. */
  lemma DeliveredOnce(s: State, results: map<int, Result>, unit: Unit)
    requires WellFiled(s)
    ensures SentTo(Delivered(s, results), unit)
         == SentTo(s, unit) + if Hit(s, results, unit) then [results[unit.fd]] else []
    ensures unit.fd in Delivered(s, results).sockets <==> unit.fd in s.sockets && unit.fd !in results
  {
    assert unit !in s.sent ==> !Hit(s, results, unit);
  }

  /** A push sends one message to every unit that waits and none to the others. */
  lemma PushedOnce(s: State, unit: Unit)
    requires WellFiled(s)
    ensures SentTo(Pushed(s), unit) == SentTo(s, unit) + if Pending(s, unit) then [Stored(s)] else []
    ensures Pending(Pushed(s), unit) <==> Pending(s, unit)
  {
    assert unit !in s.sent ==> !Pending(s, unit);
  }

  /** The poller's object. Each method but Wait runs with the mutex held from start to end. */
  class Epoll {
    var err: bool
    var polling: bool
    var readyEvents: seq<Event>
    var sockets: map<int, Unit>
    var socketsUnexpErr: map<int, Result>

    // The kernel's interest list, and the results sent on the channels.
    var interest: map<int, Interest>
    var sent: map<Unit, seq<Result>>

    function Abstract(): State
      reads this
    {
      State(err, polling, readyEvents, sockets, socketsUnexpErr, interest, sent)
    }

    constructor ()
      ensures Abstract() == State(false, false, [], map[], map[], map[], map[])
    {
      err, polling, readyEvents, sockets := false, false, [], map[];
      socketsUnexpErr, interest, sent := map[], map[], map[];
    }

    /** `spawn`: a wait loop is started. */
    method Add(unit: Unit, refused: bool) returns (err: Option<AddError>, spawn: bool)
      modifies this
      ensures err == ErrorOfAdd(old(Abstract()), unit, refused)
      ensures Abstract() == Added(old(Abstract()), unit, refused)
      ensures spawn <==> err.None? && !old(polling)
    {
      spawn := false;
      if unit.fd in socketsUnexpErr && socketsUnexpErr[unit.fd] != Success {
        err := Some(Unexpected(socketsUnexpErr[unit.fd]));
        socketsUnexpErr := socketsUnexpErr - {unit.fd};
        return;
      }
      if IsSocketInPolling(unit.fd) {
        return Some(AlreadyAdded), false;
      }
      err := Control(interest, unit, refused);
      if err.Some? {
        return;
      }
      interest := interest[unit.fd := InterestFor(unit.kind)];
      sockets := sockets[unit.fd := unit];
      sent := sent[unit := if unit in sent then sent[unit] else []];

      if !polling {
        polling := true;
        spawn := true;
      }
    }

    /** The critical section of the wait loop. `last`: the loop ends. */
    method NoteEvents(events: seq<Event>) returns (last: bool)
      modifies this`readyEvents, this`polling
      ensures Abstract() == Noted(old(Abstract()), events)
      ensures readyEvents == old(readyEvents) + events && polling == (old(polling) && |events| != |sockets|)
      ensures last <==> |events| == |sockets|
    {
      readyEvents := readyEvents + events;
      last := |events| == |sockets|;
      if last {
        polling := false;
      }
    }

    /** Finds the results of all noted events and hands them out. `ok`: no panic. */
    method ProcessEvents(readySocketsLen: nat, broken: set<int>) returns (ok: bool)
      requires WellFiled(Abstract())
      modifies this
      ensures match Processed(old(Abstract()), readySocketsLen, broken)
        case None => !ok && Abstract() == old(Abstract())
        case Some(s) => ok && Abstract() == s
    {
      var readySockets := FindReady(broken);
      if |readySockets| != readySocketsLen {
        return false;
      }
      DeliverAll(readySockets);
      readyEvents := [];
      return true;
    }

    method FindReady(broken: set<int>) returns (readySockets: map<int, Result>)
      ensures readySockets == Classified(readyEvents, sockets, broken)
    {
      readySockets := map[];
      for i := 0 to |readyEvents|
        invariant readySockets == Classified(readyEvents[..i], sockets, broken)
      {
        var v := readyEvents[i];
        assert readyEvents[..i + 1][..i] == readyEvents[..i];
        var verdict := Examine(v, v.fd in broken);
        if verdict.Some? {
          readySockets := readySockets[v.fd := verdict.value];
        }
      }
      assert readyEvents[..|readyEvents|] == readyEvents;
    }

    method DeliverAll(readySockets: map<int, Result>)
      requires WellFiled(Abstract())
      modifies this`sent, this`socketsUnexpErr, this`sockets
      ensures Abstract() == Delivered(old(Abstract()), readySockets)
    {
      ghost var s0 := Abstract();
      ghost var handled: map<int, Result> := map[];
      var todo := readySockets.Keys;
      DeliveredNothing(s0);
      while todo != {}
        invariant Abstract() == Delivered(s0, handled)
        invariant IsPart(handled, readySockets, todo)
        decreases todo
      {
        var s := AnyOf(todo);
        Deliver(s, readySockets[s], s0, handled);
        handled := handled[s := readySockets[s]];
        todo := todo - {s};
      }
      WholePart(handled, readySockets);
    }

    /** Sends one result, or keeps it as unexpected. */
    method Deliver(s: int, r: Result, ghost s0: State, ghost handled: map<int, Result>)
      requires WellFiled(s0) && Abstract() == Delivered(s0, handled) && s !in handled
      modifies this`sent, this`socketsUnexpErr, this`sockets
      ensures Abstract() == Delivered(s0, handled[s := r])
    {
      assert s in sockets <==> s in s0.sockets;
      if s in sockets {
        DeliveredStep(s0, handled, s, r);
        var unit := sockets[s];
        sent := sent[unit := sent[unit] + [r]];
      } else {
        UnclaimedStep(s0, handled, s, r);
        socketsUnexpErr := socketsUnexpErr[s := r];
      }
      DeleteSocket(s);
    }

    /** The flags in the order in which they are looked at. */
    method Examine(v: Event, broken: bool) returns (r: Option<Result>)
      ensures r == Verdict(v, KindOf(sockets, v.fd), broken)
    {
      var errs: set<Reason> := {};
      if broken {
        errs := errs + {SockOptError};
      }
      if v.error {
        errs := errs + {SocketEvent};
      }
      if v.hup {
        errs := errs + {SocketHup};
      }
      if v.rdHup {
        errs := errs + {SocketRdHup};
      }
      assert errs == Reasons(v, broken);
      if errs != {} {
        return Some(Failure(errs));
      }
      r := None;
      if v.input {
        if v.fd in sockets && sockets[v.fd].kind == Income {
          return Some(Success);
        }
        r := Some(Failure({DiffEventType}));
      }
      if v.output {
        if v.fd in sockets && (sockets[v.fd].kind == Outcome || sockets[v.fd].kind == Connect) {
          return Some(Success);
        }
        r := Some(Failure({DiffEventType}));
      }
    }

    /** The wait loop ends with an error. The mutex is not held here. */
    method SetError()
      modifies this`err
      ensures Abstract() == old(Abstract()).(err := true)
    {
      err := true;
    }

    method GetError() returns (stored: bool)
      modifies this`err
      ensures stored == old(err) && !err
    {
      stored := err;
      err := false;
    }

    /** Tells all that wait about the error of epoll_wait. */
    method PushError()
      requires WellFiled(Abstract())
      modifies this`err, this`sent
      ensures Abstract() == Pushed(old(Abstract()))
    {
      ghost var s0 := Abstract();
      var stored := GetError();
      ghost var done: set<int> := {};
      var todo := sockets.Keys;
      PushedToNobody(s0);
      NothingDone(todo);
      while todo != {}
        invariant Abstract() == PushedTo(s0, done)
        invariant IsSplit(done, todo, s0.sockets.Keys)
        decreases todo
      {
        var s := AnyOf(todo);
        OneLess(done, todo, s0.sockets.Keys, s);
        Push(s, stored, s0, done);
        done, todo := done + {s}, todo - {s};
      }
      AllDone(done, s0.sockets.Keys);
    }

    /** Sends the error, or nil, to one unit. */
    method Push(s: int, stored: bool, ghost s0: State, ghost done: set<int>)
      requires WellFiled(s0) && Abstract() == PushedTo(s0, done) && stored == s0.err
      requires s !in done && s in s0.sockets
      modifies this`sent
      ensures Abstract() == PushedTo(s0, done + {s})
    {
      PushedStep(s0, done, s);
      var unit := sockets[s];
      sent := sent[unit := sent[unit] + [if stored then WaitFailed else Success]];
    }

    /** A caller that waited too long gives up. */
    method DeleteSocketFromPolling(fd: int)
      modifies this`sockets
      ensures Abstract() == old(Abstract()).(sockets := old(sockets) - {fd})
    {
      DeleteSocket(fd);
    }

    predicate IsSocketInPolling(fd: int)
      reads this
    {
      fd in sockets
    }

    method DeleteSocket(fd: int)
      modifies this`sockets
      ensures sockets == old(sockets) - {fd}
    {
      sockets := sockets - {fd};
    }
  }

  /** `part` is `all` without the keys `todo`. */
  ghost predicate IsPart<K, V>(part: map<K, V>, all: map<K, V>, todo: set<K>) {
    && todo <= all.Keys && part.Keys == all.Keys - todo
    && forall k :: k in part ==> part[k] == all[k]
  }

  lemma WholePart<K, V>(part: map<K, V>, all: map<K, V>)
    requires IsPart(part, all, {})
    ensures part == all
  {
  }

  /** Go visits the keys of a map in no particular order. */
  method AnyOf<T>(keys: set<T>) returns (key: T)
    requires keys != {}
    ensures key in keys
  {
    key :| key in keys;
  }

  ghost predicate IsSplit<T>(done: set<T>, todo: set<T>, all: set<T>) {
    done + todo == all && done !! todo
  }

  lemma NothingDone<T>(all: set<T>)
    ensures IsSplit({}, all, all)
  {
  }

  lemma OneLess<T>(done: set<T>, todo: set<T>, all: set<T>, x: T)
    requires IsSplit(done, todo, all) && x in todo
    ensures IsSplit(done + {x}, todo - {x}, all) && x in all && x !in done
  {
  }

  lemma AllDone<T>(done: set<T>, all: set<T>)
    requires IsSplit(done, {}, all)
    ensures done == all
  {
  }

  lemma PushedToNobody(s: State)
    ensures PushedTo(s, {}) == s.(err := false)
  {
    assert SentAfterPush(s, {}) == s.sent;
  }

  /** Telling one more unit. */
  lemma PushedStep(s: State, fds: set<int>, fd: int)
    requires WellFiled(s) && fd !in fds && fd in s.sockets
    ensures var unit := s.sockets[fd];
      && unit in SentAfterPush(s, fds)
      && SentAfterPush(s, fds + {fd}) == SentAfterPush(s, fds)[unit := SentAfterPush(s, fds)[unit] + [Stored(s)]]
  {
  }

  lemma DeliveredNothing(s: State)
    ensures Delivered(s, map[]) == s
  {
    assert s.sockets - {} == s.sockets;
    assert s.unexpected + Unclaimed(s.sockets, map[]) == s.unexpected;
    assert SentAfter(s, map[]) == s.sent;
  }

  /** Handing out one more result: to the unit that waits for it... */
  lemma DeliveredStep(s: State, results: map<int, Result>, fd: int, r: Result)
    requires WellFiled(s) && fd !in results && fd in s.sockets
    ensures var unit := s.sockets[fd];
      && SentAfter(s, results[fd := r]) == SentAfter(s, results)[unit := SentAfter(s, results)[unit] + [r]]
      && Unclaimed(s.sockets, results[fd := r]) == Unclaimed(s.sockets, results)
      && s.sockets - results.Keys - {fd} == s.sockets - results[fd := r].Keys
  {
    var unit := s.sockets[fd];
    assert !Hit(s, results, unit) && Hit(s, results[fd := r], unit);
    forall u | u in s.sent && u != unit
      ensures Hit(s, results, u) <==> Hit(s, results[fd := r], u)
      ensures Hit(s, results, u) ==> results[u.fd] == results[fd := r][u.fd]
    {
    }
  }

  /** ...or to the unexpected ones. */
  lemma UnclaimedStep(s: State, results: map<int, Result>, fd: int, r: Result)
    requires fd !in results && fd !in s.sockets
    ensures SentAfter(s, results[fd := r]) == SentAfter(s, results)
    ensures s.unexpected + Unclaimed(s.sockets, results[fd := r])
         == (s.unexpected + Unclaimed(s.sockets, results))[fd := r]
    ensures s.sockets - results.Keys - {fd} == s.sockets - results[fd := r].Keys
  {
    assert Unclaimed(s.sockets, results[fd := r]) == Unclaimed(s.sockets, results)[fd := r];
    forall u | u in s.sent
      ensures Hit(s, results, u) <==> Hit(s, results[fd := r], u)
      ensures Hit(s, results, u) ==> results[u.fd] == results[fd := r][u.fd]
    {
    }
  }
}
