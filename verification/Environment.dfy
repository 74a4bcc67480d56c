/** The world outside of a connection: sockets, the server behind them, and the caller's
    context. Every call answers as it likes within its contract. The errno of a failed call is
    given as the error that the socket and transmitter code turns it into.

    With `lockStep` set the environment is the well-behaved one that the driver is made for: no
    connection is lost, no poll times out, and the server answers every complete command with
    one reply, queued as a whole. How long it takes is up to the environment, but it may keep
    the driver waiting only finitely often. */
module Environment {
  import opened Bytes
  import opened Resp
  import opened Server

  datatype Event = Connecting | Income | Outgoing

  /** One reason of a failed poll; a failure carries a set of them. */
  datatype PollReason =
    | SocketEvent | SocketHup | SocketRdHup
    | BrokenPipe | TimedOut | ResetByPeer
    | OtherReason(code: int)

  /** How many polls of each kind have run into their deadline. */
  datatype Timeouts = Timeouts(connecting: nat, income: nat, outgoing: nat) {
    /** At least `n` more polls of one kind timed out than `before`. */
    predicate Exhausted(before: Timeouts, n: int) {
      connecting >= before.connecting + n || income >= before.income + n || outgoing >= before.outgoing + n
    }

    predicate NotLess(before: Timeouts) {
      connecting >= before.connecting && income >= before.income && outgoing >= before.outgoing
    }

    function After(event: Event): Timeouts {
      match event
      case Connecting => this.(connecting := connecting + 1)
      case Income => this.(income := income + 1)
      case Outgoing => this.(outgoing := outgoing + 1)
    }
  }

  /** The answers to connect(2): all of them, EAGAIN, EINPROGRESS; and the sockets for which a
      connection attempt goes on. */
  datatype Connects = Connects(calls: nat, again: nat, started: nat, pending: set<int>) {
    function After(fd: int, err: Option<Error>): Connects {
      match err
      case Some(ErrWouldBlock) => Connects(calls + 1, again + 1, started, pending - {fd})
      case Some(ErrInProgress) => Connects(calls + 1, again, started + 1, pending + {fd})
      case Some(ErrConnectionInProcess) => Connects(calls + 1, again, started, pending)
      case _ => Connects(calls + 1, again, started, pending - {fd})
    }
  }

  datatype PollResult = Ready | DeadlinePassed | PollFailed(reasons: set<PollReason>)

  /** What a read gave: the number of bytes, the flags of the message, the error. */
  datatype ReadAnswer = ReadAnswer(n: nat, trunc: bool, ctrunc: bool, err: Option<Error>)

  /** The last answers to the system calls of one kind each; `opens` counts the sockets asked for. */
  datatype Answers = Answers(
    send: Option<Error>,
    recv: ReadAnswer,
    left: nat,
    poller: Option<Error>,
    opens: nat,
    open: Option<Error>,
    connect: Option<Error>,
    connecting: PollResult,
    incoming: PollResult,
    outgoing: PollResult)
  {
    function Polled(event: Event, r: PollResult): Answers {
      match event
      case Connecting => this.(connecting := r)
      case Income => this.(incoming := r)
      case Outgoing => this.(outgoing := r)
    }
  }

  /** The errors that failed system calls are turned into. */
  predicate SystemError(e: Error) {
    e.ErrConnectionReset? || e.ErrConnectionClosed? || e.ErrNotConnected? || e.ErrSocketBadFD?
    || e.ErrWouldBlock? || e.ErrConnectionInProcess? || e.ErrOther?
  }

  type Reply = r: bytes | r != [] witness [LF]

  /** A TCP socket: all bytes the kernel took over for sending, how many of them the server has
      answered, and the bytes that wait to be read. */
  datatype Sock = Sock(accepted: bytes, served: nat, queue: bytes)

  class Kernel {
    const lockStep: bool

    // The server's reply to a command, given everything sent on the socket up to its end.
    const reply: bytes -> Reply

    var socks: map<int, Sock>
    var patience: nat

    // All bytes handed out by reads that came back without a truncation flag.
    ghost var handed: bytes

    var connects: Connects
    ghost var timeouts: Timeouts
    ghost var last: Answers

    constructor (lockStep: bool, reply: bytes -> Reply, patience: nat)
      ensures socks == map[] && handed == []
      ensures this.lockStep == lockStep && this.reply == reply && this.patience == patience
    {
      this.lockStep := lockStep;
      this.reply := reply;
      this.patience := patience;
      socks := map[];
      handed := [];
      connects := Connects(0, 0, 0, {});
      timeouts := Timeouts(0, 0, 0);
      last := Answers(None, ReadAnswer(0, false, false, None), 0, None, 0, None, None, Ready, Ready, Ready);
    }

    /** The server has everything it needs for its next reply. */
    predicate Answerable(s: Sock) {
      s.served <= |s.accepted| && IsCommand(s.accepted[s.served..])
    }

    function Answered(s: Sock): Sock {
      Sock(s.accepted, |s.accepted|, s.queue + reply(s.accepted))
    }

    /** What the server's side may do to a socket at any time. */
    ghost predicate MayBecome(s: Sock, s': Sock) {
      if lockStep then s' == s || (Answerable(s) && s' == Answered(s))
      else s'.accepted == s.accepted && s'.served == s.served && s.queue <= s'.queue
    }

    /** Only socket `fd` changed, and it ended up as something that `s` may become. */
    twostate predicate Became(fd: int, s: Sock)
      reads this
    {
      && fd in socks && fd in old(socks)
      && socks == old(socks)[fd := socks[fd]]
      && MayBecome(s, socks[fd])
    }

    method ServerMoves(fd: int)
      requires fd in socks
      modifies this`socks
      ensures Became(fd, old(socks[fd]))
    {
      var s := socks[fd];
      if lockStep {
        if * {
          if Answerable(s) {
            socks := socks[fd := Answered(s)];
          }
        }
      } else {
        var more: bytes := *;
        socks := socks[fd := s.(queue := s.queue + more)];
      }
    }

    /** sendmsg(2). */
    method Send(fd: int, data: bytes) returns (n: nat, err: Option<Error>)
      modifies this`socks, this`patience, this`last
      ensures last == old(last).(send := err)
      ensures fd !in old(socks) ==>
                n == 0 && err == Some(ErrSocketBadFD) && socks == old(socks) && patience == old(patience)
      ensures n <= |data|
      ensures err.Some? ==> n == 0 && SystemError(err.value)
      ensures fd in old(socks) ==> Became(fd, old(socks[fd]).(accepted := old(socks[fd]).accepted + data[..n]))
      ensures lockStep && fd in old(socks) ==>
                if err.Some? then err.value == ErrWouldBlock && patience < old(patience)
                else (data != [] ==> n >= 1) && patience == old(patience)
    {
      n, err := 0, None;
      if fd !in socks {
        last := last.(send := Some(ErrSocketBadFD));
        return 0, Some(ErrSocketBadFD);
      }
      if lockStep {
        var busy: bool := *;
        if busy && patience > 0 {
          patience := patience - 1;
          err := Some(ErrWouldBlock);
        } else if data != [] {
          n :| 1 <= n <= |data|;
        }
      } else {
        err := AnyError();
        if err.None? {
          n :| 0 <= n <= |data|;
        }
      }
      assert err.Some? ==> data[..n] == [];
      socks := socks[fd := socks[fd].(accepted := socks[fd].accepted + data[..n])];
      ServerMoves(fd);
      last := last.(send := err);
    }

    method AnyError() returns (err: Option<Error>)
      ensures err.Some? ==> SystemError(err.value)
    {
      err := *;
      if err.Some? && !SystemError(err.value) {
        err := Some(ErrOther(0));
      }
    }

    /** recvmsg(2) into a buffer with room for `room` bytes. `at` is the socket at the moment
        of the read. */
    method Recv(fd: int, room: nat)
      returns (chunk: bytes, trunc: bool, ctrunc: bool, err: Option<Error>, ghost at: Sock)
      modifies this`socks, this`patience, this`handed, this`last
      ensures last == old(last).(recv := ReadAnswer(|chunk|, trunc, ctrunc, err))
      ensures fd !in old(socks) ==> err == Some(ErrSocketBadFD) && socks == old(socks) && patience == old(patience)
      ensures |chunk| <= room && patience <= old(patience)
      ensures err.Some? ==> chunk == [] && !trunc && !ctrunc && SystemError(err.value)
      ensures handed == old(handed) + if trunc || ctrunc then [] else chunk
      ensures fd in old(socks) ==>
                && MayBecome(old(socks[fd]), at) && chunk <= at.queue
                && socks == old(socks)[fd := at.(queue := at.queue[|chunk|..])]
      ensures lockStep && fd in old(socks) && room > 0 ==>
                && !trunc && !ctrunc
                && if err.Some? then err.value == ErrWouldBlock && at == old(socks[fd]) && at.queue == []
                                     && (patience < old(patience) || !Answerable(at))
                   else patience == old(patience) && |at.queue| > 0
                        && |chunk| == if room < |at.queue| then room else |at.queue|
    {
      chunk, trunc, ctrunc, err := [], false, false, None;
      if fd !in socks {
        err := Some(ErrSocketBadFD);
        at := Sock([], 0, []);
        last := last.(recv := ReadAnswer(0, false, false, err));
        return;
      }
      if lockStep {
        var s := socks[fd];
        var wait: bool := *;
        if s.queue == [] && ((wait && patience > 0) || !Answerable(s)) {
          if patience > 0 {
            patience := patience - 1;
          }
          err := Some(ErrWouldBlock);
          at := s;
          assert at.(queue := at.queue[0..]) == at;
        } else {
          var late: bool := *;
          if s.queue == [] || (late && Answerable(s)) {
            s := Answered(s);
          }
          chunk := s.queue[..if room < |s.queue| then room else |s.queue|];
          at := s;
          socks := socks[fd := s.(queue := s.queue[|chunk|..])];
        }
      } else {
        ServerMoves(fd);
        var s := socks[fd];
        at := s;
        assert socks == old(socks)[fd := at] && at.(queue := at.queue[0..]) == at;
        err := AnyError();
        if err.None? {
          var n: nat :| 0 <= n <= room && n <= |s.queue|;
          chunk := s.queue[..n];
          trunc, ctrunc := *, *;
          socks := socks[fd := s.(queue := s.queue[n..])];
        }
      }
      handed := handed + if trunc || ctrunc then [] else chunk;
      last := last.(recv := ReadAnswer(|chunk|, trunc, ctrunc, err));
    }

    /** ioctl(2) with SIOCINQ; 0 when it fails. */
    method BytesLeft(fd: int) returns (n: nat)
      requires fd in socks
      modifies this`socks, this`last
      ensures last == old(last).(left := n)
      ensures Became(fd, old(socks[fd]))
      ensures n <= |socks[fd].queue|
      ensures lockStep ==> n == |socks[fd].queue|
    {
      ServerMoves(fd);
      n := |socks[fd].queue|;
      if !lockStep {
        n :| 0 <= n <= |socks[fd].queue|;
      }
      last := last.(left := n);
    }

    /** A new socket; no connection attempt was made on it. */
    method NewSocket() returns (fd: int, err: Option<Error>)
      modifies this`socks, this`connects, this`last
      ensures last == old(last).(opens := old(last).opens + 1, open := err)
      ensures err.Some? ==> socks == old(socks) && SystemError(err.value)
      ensures err.None? ==> fd !in old(socks) && socks == old(socks)[fd := Sock([], 0, [])]
      ensures err.None? ==> fd !in connects.pending
      ensures connects == old(connects).(pending := connects.pending)
    {
      fd := 0;
      err := AnyError();
      if err.None? {
        fd := FreeFd();
        socks := socks[fd := Sock([], 0, [])];
        connects := connects.(pending := connects.pending - {fd});
      }
      last := last.(opens := last.opens + 1, open := err);
    }

    /** The poller that all connections share. */
    method NewPoller() returns (err: Option<Error>)
      modifies this`last
      ensures err.Some? ==> SystemError(err.value)
      ensures last == old(last).(poller := err)
    {
      err := AnyError();
      last := last.(poller := err);
    }

    /** Any number that is not in use; a closed one may come again. */
    method FreeFd() returns (fd: int)
      ensures fd !in socks
    {
      fd := 0;
      var used := socks.Keys;
      while fd in socks
        invariant used <= socks.Keys
        invariant forall k :: k in socks && k !in used ==> k < fd
        decreases used
      {
        if fd in used {
          used := used - {fd};
        }
        fd := fd + 1;
      }
    }

    method Close(fd: int)
      modifies this`socks
      ensures socks == old(socks) - {fd}
    {
      socks := socks - {fd};
    }

    /** connect(2). As long as a connection attempt goes on it is not started again: the answer
        is EALREADY, or how the attempt ended. */
    method Connect(fd: int) returns (err: Option<Error>)
      modifies this`connects, this`last
      ensures connects == old(connects).After(fd, err) && last == old(last).(connect := err)
      ensures err.Some? ==> SystemError(err.value) || err.value == ErrInProgress
      ensures fd in old(connects).pending ==> err != Some(ErrWouldBlock) && err != Some(ErrInProgress)
      ensures err == Some(ErrConnectionInProcess) ==> fd in old(connects).pending
    {
      var starts: bool := *;
      err := AnyError();
      if fd in connects.pending {
        err := if err == Some(ErrWouldBlock) then Some(ErrConnectionInProcess) else err;
      } else if starts {
        err := Some(ErrInProgress);
      } else if err == Some(ErrConnectionInProcess) {
        err := None;
      }
      connects := connects.After(fd, err);
      last := last.(connect := err);
    }

    /** A poll of socket `fd` by the connection, up to its deadline. */
    method Poll(fd: int, event: Event) returns (r: PollResult)
      requires fd in socks
      modifies this`socks, this`timeouts, this`last
      ensures last == old(last).Polled(event, r)
      ensures Became(fd, old(socks[fd]))
      ensures lockStep && event != Connecting ==> r == Ready
      ensures timeouts == if r == DeadlinePassed then old(timeouts).After(event) else old(timeouts)
    {
      ServerMoves(fd);
      r := Ready;
      if !lockStep || event == Connecting {
        r := *;
      }
      timeouts := if r == DeadlinePassed then timeouts.After(event) else timeouts;
      last := last.Polled(event, r);
    }
  }

  /** A context that can expire at any time if it can be cancelled at all. */
  class Context {
    const cancellable: bool
    var expired: bool

    constructor (cancellable: bool)
      ensures this.cancellable == cancellable && !expired
    {
      this.cancellable := cancellable;
      expired := false;
    }

    ghost predicate CannotExpire()
      reads this
    {
      !cancellable && !expired
    }

    method Err() returns (e: bool)
      modifies this`expired
      ensures e == expired
      ensures old(expired) ==> expired
      ensures !cancellable ==> expired == old(expired)
    {
      if cancellable && !expired {
        expired := *;
      }
      e := expired;
    }
  }
}
