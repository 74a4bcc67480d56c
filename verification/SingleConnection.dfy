/** A single connection: encode, send, receive and decode one command at a time. */
module SingleConnection {
  import opened Bytes
  import opened Resp
  import Parsing
  import opened CommandDomain
  import opened Server
  import opened Coder
  import opened ConnectionOptions
  import opened Environment
  import opened Messenger
  import opened Growth

  /** The outcome of a send or receive loop. Unfinished: the loop has used up the given number
      of iterations and is still going. */
  datatype LoopResult = Finished | Failed(err: Error) | Unfinished

  /** How one pass through the body of such a loop ends: with another pass, perhaps after a poll
      that timed out, with success, with an error, or inside an inner loop that is still going. */
  datatype Step = Again(timedOut: bool) | Complete | Stop(err: Error) | Cut

  datatype Answer = Returned(result: Parsing.Result) | Pending

  /** The bytes of one whole command with any arguments. */
  ghost predicate OneCommand(command: bytes) {
    exists args :: InMemory(args) && Command(args) == command
  }

  /** The reasons of a failed poll that say that the connection is gone. */
  const CLOSING: set<PollReason> := {SocketEvent, SocketHup, SocketRdHup, BrokenPipe, TimedOut}

  /** What connecting, sending or receiving can fail with for good. */
  predicate IsConnectionError(e: Error) {
    SystemError(e) || e == ErrOperationRetriesFailed
  }

  /** Why a command is not even sent. */
  predicate IsEncodingError(e: Error) {
    e.ErrSendBufTooShort? || e.ErrUnsupportedDataType?
  }

  predicate IsPollError(e: Error) {
    e.ErrConnectionClosed? || e.ErrConnectionReset? || e.ErrOther?
  }

  /** The error a failed poll is reported as, in the order in which the reasons are looked for. */
  function ProcessPollError(reasons: set<PollReason>): (e: Error)
    ensures e == ErrConnectionClosed <==> !(reasons !! CLOSING)
    ensures e == ErrConnectionReset <==> reasons !! CLOSING && ResetByPeer in reasons
    ensures IsPollError(e)
  {
    if SocketEvent in reasons || SocketHup in reasons || SocketRdHup in reasons then ErrConnectionClosed
    else if BrokenPipe in reasons || TimedOut in reasons then ErrConnectionClosed
    else if ResetByPeer in reasons then ErrConnectionReset
    else ErrOther(0)
  }

  /** What connecting ends with, by the last answers of the kernel: success if the call was answered
      with nil, or if the attempt goes on or could not be made yet and its poll found the socket
      ready; otherwise the error of the call, or the error that the poll failed with. */
  ghost predicate ConnectGave(a: Answers, err: Option<Error>) {
    match a.connect
    case None => err == None
    case Some(e) =>
      if e == ErrWouldBlock || e == ErrInProgress then
        match a.connecting
        case Ready => err == None
        case DeadlinePassed => err == Some(ErrOperationRetriesFailed)
        case PollFailed(reasons) => err == Some(ProcessPollError(reasons))
      else err == Some(e)
  }

  /** What a reconnect ends with: the error of asking for a socket, or what connecting gave. */
  ghost predicate ReconnectGave(a: Answers, err: Option<Error>) {
    if a.open.Some? then err == a.open else ConnectGave(a, err)
  }

  /** The error for a reply that is too long: ErrRecvBufTooShort if and only if the reconnect
      succeeded, otherwise what it gave. */
  ghost predicate TooLong(a: Answers, e: Error) {
    ReconnectGave(a, if e == ErrRecvBufTooShort then None else Some(e))
  }

  predicate IsLoss(e: Error) {
    e == ErrConnectionReset || e == ErrConnectionClosed
  }

  /** The last send, or the poll after it, tells that the connection is lost. */
  ghost predicate SendLost(a: Answers) {
    && a.send.Some?
    && if a.send.value == ErrWouldBlock then a.outgoing.PollFailed? && IsLoss(ProcessPollError(a.outgoing.reasons))
       else IsLoss(a.send.value)
  }

  /** Why sending stops with `e`, by the last answers: the reconnect after a loss gave it, or the
      connect of a socket that is not connected; a poll failed with it; or the send did. */
  ghost predicate SendStopped(a: Answers, e: Error) {
    && a.send.Some?
    && if SendLost(a) then ReconnectGave(a, Some(e))
       else if a.send.value == ErrWouldBlock then a.outgoing.PollFailed? && e == ProcessPollError(a.outgoing.reasons)
       else if a.send.value == ErrNotConnected then ConnectGave(a, Some(e))
       else e == a.send.value
  }

  /** Why receiving stops with `e`, but for a reply that is too long: the resend after a close
      stopped with it; the connect of a socket that is not connected or a poll gave it; or the
      read did. `len` is the length of the buffer. */
  ghost predicate ReceiveStopped(a: Answers, len: nat, e: Error) {
    match ReadError(a, len)
    case None => false
    case Some(ErrRecvMsgTrunc) => false
    case Some(ErrWouldBlock) => a.incoming.PollFailed? && e == ProcessPollError(a.incoming.reasons)
    case Some(ErrNotConnected) => ConnectGave(a, Some(e))
    case Some(ErrConnectionClosed) =>
      ReconnectGave(a, Some(e)) || SendStopped(a, e) || e == ErrOperationRetriesFailed || e == ErrContext
    case Some(other) => e == other
  }

  /** The command can be encoded, with the buffer at its largest length if need be. */
  ghost predicate Encodes(opts: Limits, cmdArgs: seq<Arg>) {
    AllSupported(cmdArgs) && |Encoding(cmdArgs)| <= opts.sendBufMaxLen
  }

  class Connection {
    const opts: Limits
    const kernel: Kernel
    const stack: nat

    var socket: Option<int>
    const coder: Translator
    const msgr: Transmitter

    const sendBuf: SendBuf
    const recvBuf: RecvBuf

    var processing: bool

    // What the current socket had accepted before the current command.
    ghost var base: bytes

    ghost predicate Valid()
      reads this, kernel, msgr, sendBuf, recvBuf
    {
      && opts.Usable() && msgr.kernel == kernel
      && opts.sendBufMinLen <= sendBuf.buf.Length <= opts.sendBufMaxLen
      && opts.receiveBufMinLen <= recvBuf.buf.Length <= opts.receiveBufMaxLen
      && sendBuf.buf != recvBuf.buf
      && sendBuf.sentBytes <= sendBuf.writePos <= sendBuf.buf.Length
      && recvBuf.writePos <= recvBuf.buf.Length
      && kernel.socks.Keys == (if socket.Some? then {socket.value} else {})
    }

    /** The messenger works on the connection's own, open socket. */
    ghost predicate Synced()
      reads this, msgr
    {
      socket == Some(msgr.socketFd)
    }

    /** This was lost, which only a reconnect that fails can do. */
    twostate predicate SyncLost()
      reads this, msgr
    {
      old(Synced()) && !Synced()
    }

    ghost function Current(): Sock
      reads this, kernel, msgr, sendBuf, recvBuf
      requires Valid() && Synced()
    {
      kernel.socks[msgr.socketFd]
    }

    /** Nothing of a command is left in the buffers. */
    ghost predicate Clean()
      reads sendBuf, recvBuf
    {
      sendBuf.writePos == 0 && sendBuf.sentBytes == 0 && recvBuf.writePos == 0
    }

    ghost function Message(): bytes
      reads sendBuf, sendBuf.buf
    {
      if sendBuf.writePos <= sendBuf.buf.Length then sendBuf.buf[..sendBuf.writePos] else []
    }

    ghost function Received(): bytes
      reads recvBuf, recvBuf.buf
    {
      if recvBuf.writePos <= recvBuf.buf.Length then recvBuf.buf[..recvBuf.writePos] else []
    }

    constructor (opts: Limits, kernel: Kernel, stack: nat, fd: int)
      requires opts.Usable() && kernel.socks.Keys == {fd}
      ensures Valid() && Synced() && Clean() && !processing && coder.decodingErr == None
      ensures this.opts == opts && this.kernel == kernel && this.stack == stack && msgr.socketFd == fd
      ensures fresh(coder) && fresh(msgr) && fresh(sendBuf) && fresh(recvBuf)
      ensures fresh(sendBuf.buf) && fresh(recvBuf.buf)
      ensures sendBuf.buf.Length == opts.sendBufMinLen && recvBuf.buf.Length == opts.receiveBufMinLen
    {
      this.opts := opts;
      this.kernel := kernel;
      this.stack := stack;
      socket := Some(fd);
      coder := new Translator();
      msgr := new Transmitter(kernel, fd);
      sendBuf := new SendBuf(opts.sendBufMinLen);
      recvBuf := new RecvBuf(opts.receiveBufMinLen);
      processing := false;
      base := [];
    }

    // ---------------------------------------------------------------- connecting

    /** Connects the current socket. Gives up after as many poll timeouts as there are attempts;
        its own ErrOperationRetriesFailed means exactly that. An attempt that goes on when its poll
        times out is not waited for again: all timeouts but one come from EAGAIN. */
    method Connect() returns (err: Option<Error>)
      requires Valid() && socket.Some?
      modifies kernel`socks, kernel`last, kernel`connects, kernel`timeouts
      ensures Valid() && SameSocket(kernel.socks, old(kernel.socks))
      ensures err.Some? ==> IsConnectionError(err.value)
      ensures ConnectGave(kernel.last, err) && OnlyConnected(old(kernel.last))
      ensures kernel.connects.calls - old(kernel.connects.calls) <= opts.retryAmount
      ensures kernel.timeouts == old(kernel.timeouts).(connecting := kernel.timeouts.connecting)
      ensures kernel.timeouts.connecting >= old(kernel.timeouts.connecting)
      ensures kernel.timeouts.connecting - old(kernel.timeouts.connecting) <= opts.retryAmount
      ensures err == Some(ErrOperationRetriesFailed) <==>
                kernel.timeouts.connecting - old(kernel.timeouts.connecting) == opts.retryAmount
      ensures kernel.connects.started - old(kernel.connects.started) <= 1
      ensures err == Some(ErrOperationRetriesFailed) ==>
                kernel.connects.again - old(kernel.connects.again) >= opts.retryAmount - 1
      ensures err == Some(ErrConnectionInProcess) && socket.value !in old(kernel.connects).pending ==>
                kernel.connects.started > old(kernel.connects.started)
                && kernel.timeouts.connecting > old(kernel.timeouts.connecting)
    {
      var retriesAvailable := opts.retryAmount;
      while true
        invariant Valid() && SameSocket(kernel.socks, old(kernel.socks))
        invariant 0 <= retriesAvailable <= opts.retryAmount
        invariant kernel.timeouts == old(kernel.timeouts).(
                    connecting := old(kernel.timeouts.connecting) + opts.retryAmount - retriesAvailable)
        invariant Attempts(old(kernel.connects), kernel.connects, opts.retryAmount - retriesAvailable)
        invariant OnlyConnected(old(kernel.last))
        invariant retriesAvailable < opts.retryAmount ==> ConnectGave(kernel.last, Some(ErrOperationRetriesFailed))
        decreases retriesAvailable
      {
        if retriesAvailable == 0 {
          return Some(ErrOperationRetriesFailed);
        }
        var step := ConnectPass();
        match step {
          case Again(_) => retriesAvailable := retriesAvailable - 1;
          case Stop(e) => return Some(e);
          case _ => return None;
        }
      }
    }

    /** Since the answers were `before`, nothing was asked of the kernel but to connect. */
    ghost predicate OnlyConnected(before: Answers)
      reads kernel
    {
      kernel.last == before.(connect := kernel.last.connect, connecting := kernel.last.connecting)
    }

    /** `n` attempts were made whose polls timed out. Only the last of them can have left a
        connection attempt that goes on. */
    ghost predicate Attempts(before: Connects, now: Connects, n: int)
      reads this
    {
      && socket.Some?
      && now.calls == before.calls + n
      && now.again + now.started == before.again + before.started + n
      && now.again >= before.again
      && if now.started == before.started then socket.value in now.pending ==> socket.value in before.pending
         else now.started == before.started + 1 && socket.value in now.pending
    }

    /** One pass through the loop. It leads to another one only if the poll timed out, and then no
        connection attempt had been going on before. */
    method ConnectPass() returns (step: Step)
      requires Valid() && socket.Some?
      modifies kernel`socks, kernel`last, kernel`connects, kernel`timeouts
      ensures Valid() && SameSocket(kernel.socks, old(kernel.socks))
      ensures step == Again(true) || step.Complete? || (step.Stop? && SystemError(step.err))
      ensures OnlyConnected(old(kernel.last))
      ensures ConnectGave(kernel.last, match step
                                       case Again(_) => Some(ErrOperationRetriesFailed)
                                       case Stop(e) => Some(e)
                                       case _ => None)
      ensures kernel.timeouts == if step.Again? then old(kernel.timeouts).After(Connecting) else old(kernel.timeouts)
      ensures exists err :: kernel.connects == old(kernel.connects).After(socket.value, err)
                            && (step.Again? ==> err == Some(ErrWouldBlock) || err == Some(ErrInProgress))
      ensures socket.value in old(kernel.connects).pending ==>
                !step.Again? && kernel.connects.started == old(kernel.connects).started
      ensures step == Stop(ErrConnectionInProcess) ==> socket.value in old(kernel.connects).pending
    {
      var err := kernel.Connect(socket.value);
      if err.None? {
        return Complete;
      }
      if err.value == ErrWouldBlock || err.value == ErrInProgress {
        err := Poll(Connecting);
        if err.Some? {
          return if err.value == ErrPollTimeout then Again(true) else Stop(err.value);
        }
        return Complete;
      }
      return Stop(err.value);
    }

    /** The open socket is the same as before, and all it may have got are bytes to read. */
    ghost predicate SameSocket(after: map<int, Sock>, before: map<int, Sock>)
      reads this, kernel
    {
      && socket.Some? && socket.value in after && socket.value in before
      && after.Keys == before.Keys
      && after[socket.value].accepted == before[socket.value].accepted
      && (kernel.lockStep && !kernel.Answerable(before[socket.value]) ==> after[socket.value] == before[socket.value])
    }

    /** The poll of the current socket, with its error made fit for the calling loop. */
    method Poll(event: Event) returns (err: Option<Error>)
      requires Valid() && socket.Some?
      modifies kernel`socks, kernel`last, kernel`timeouts
      ensures Valid() && kernel.Became(socket.value, old(kernel.socks[socket.value]))
      ensures exists r :: kernel.last == old(kernel.last).Polled(event, r)
                          && match r
                             case Ready => err == None
                             case DeadlinePassed => err == Some(ErrPollTimeout)
                             case PollFailed(reasons) => err == Some(ProcessPollError(reasons))
      ensures err.Some? ==> err.value == ErrPollTimeout || IsPollError(err.value)
      ensures kernel.lockStep && event != Connecting ==> err == None
      ensures kernel.timeouts
           == if err == Some(ErrPollTimeout) then old(kernel.timeouts).After(event) else old(kernel.timeouts)
    {
      var r := kernel.Poll(socket.value, event);
      match r {
        case Ready => return None;
        case DeadlinePassed => return Some(ErrPollTimeout);
        case PollFailed(reasons) => return Some(ProcessPollError(reasons));
      }
    }

    /** Replaces the socket. On success the new one is connected and has seen nothing yet. */
    method Reconnect() returns (err: Option<Error>)
      requires Valid() && socket.Some?
      modifies this`socket, this`base, kernel`socks, kernel`last, kernel`connects, kernel`timeouts, msgr`socketFd
      ensures Valid() && base == []
      ensures ReconnectGave(kernel.last, err) && OnlyReconnected(old(kernel.last))
      ensures err.None? ==> Synced() && Current().accepted == []
      ensures err.None? && kernel.lockStep ==> Current() == Sock([], 0, [])
      ensures err.Some? ==>
                && IsConnectionError(err.value) && msgr.socketFd == old(msgr.socketFd)
                && (Synced() <==> socket == Some(old(msgr.socketFd)))
      ensures kernel.connects.calls - old(kernel.connects.calls) <= opts.retryAmount
      ensures kernel.timeouts == old(kernel.timeouts).(connecting := kernel.timeouts.connecting)
      ensures kernel.timeouts.connecting >= old(kernel.timeouts.connecting)
      ensures err == Some(ErrOperationRetriesFailed) ==>
                kernel.timeouts.connecting - old(kernel.timeouts.connecting) == opts.retryAmount
    {
      kernel.Close(socket.value);
      base := [];
      var fd;
      fd, err := kernel.NewSocket();
      if err.Some? {
        socket := None;
        return;
      }
      socket := Some(fd);

      err := Connect();
      if err.Some? {
        return;
      }
      msgr.ChangeSocketFd(fd);
      return None;
    }

    /** Since the answers were `before`, nothing was asked of the kernel but to reconnect, once. */
    ghost predicate OnlyReconnected(before: Answers)
      reads kernel
    {
      var now := kernel.last;
      now == before.(opens := before.opens + 1, open := now.open, connect := now.connect, connecting := now.connecting)
    }

    // ---------------------------------------------------------------- growing

    method IncreaseSendBuf() returns (ok: bool)
      requires Valid()
      modifies sendBuf`buf
      ensures Valid()
      ensures ok <==> old(sendBuf.buf.Length) < opts.sendBufMaxLen
      ensures if ok then fresh(sendBuf.buf) else sendBuf.buf == old(sendBuf.buf)
      ensures ok ==> sendBuf.buf.Length == NextLen(old(sendBuf.buf.Length), opts.sendBufMaxLen)
      ensures var len, max := old(sendBuf.buf.Length), opts.sendBufMaxLen;
              ok ==> sendBuf.buf.Length == if 2 * len <= max then 2 * len else max
      ensures ok ==> sendBuf.buf[..old(sendBuf.buf.Length)] == old(sendBuf.buf[..])
    {
      var available := opts.sendBufMaxLen - sendBuf.buf.Length;
      if available <= 0 {
        return false;
      }
      if sendBuf.buf.Length * 2 <= opts.sendBufMaxLen {
        sendBuf.buf := Enlarged(sendBuf.buf, sendBuf.buf.Length * 2);
        return true;
      }
      sendBuf.buf := Enlarged(sendBuf.buf, sendBuf.buf.Length + available);
      return true;
    }

    method IncreaseRecvBuf() returns (ok: bool)
      requires Valid()
      modifies recvBuf`buf
      ensures Valid()
      ensures ok <==> old(recvBuf.buf.Length) < opts.receiveBufMaxLen
      ensures if ok then fresh(recvBuf.buf) else recvBuf.buf == old(recvBuf.buf)
      ensures ok ==> recvBuf.buf.Length == NextLen(old(recvBuf.buf.Length), opts.receiveBufMaxLen)
      ensures var len, max := old(recvBuf.buf.Length), opts.receiveBufMaxLen;
              ok ==> recvBuf.buf.Length == if 2 * len <= max then 2 * len else max
      ensures ok ==> recvBuf.buf[..old(recvBuf.buf.Length)] == old(recvBuf.buf[..])
    {
      var available := opts.receiveBufMaxLen - recvBuf.buf.Length;
      if available <= 0 {
        return false;
      }
      if recvBuf.buf.Length * 2 <= opts.receiveBufMaxLen {
        recvBuf.buf := Enlarged(recvBuf.buf, recvBuf.buf.Length * 2);
        return true;
      }
      recvBuf.buf := Enlarged(recvBuf.buf, recvBuf.buf.Length + available);
      return true;
    }

    static method Enlarged(a: array<byte>, len: nat) returns (b: array<byte>)
      requires a.Length <= len
      ensures fresh(b) && b.Length == len && b[..a.Length] == a[..]
    {
      b := new byte[len](_ => 0);
      for i := 0 to a.Length
        invariant b[..i] == a[..i]
      {
        b[i] := a[i];
      }
      assert a[..] == a[..a.Length];
    }

    // ---------------------------------------------------------------- sending

    /** What the socket the messenger works on has accepted of the current command is what is
        counted as sent, once and in order. */
    ghost predicate Delivered()
      reads this, kernel, msgr, sendBuf, recvBuf, sendBuf.buf
    {
      && Valid()
      && (Synced() ==> Current().accepted == base + sendBuf.buf[..sendBuf.sentBytes])
    }

    /** The environment is the well-behaved one, and the current socket is in state `s`. */
    ghost predicate InStep(s: Sock)
      reads this, kernel, msgr, sendBuf, recvBuf
    {
      kernel.lockStep && Valid() && Synced() && Current() == s
    }

    /** The server has got a part of the command, or all of it. */
    ghost predicate PartSent(sent: nat)
      reads this, kernel, msgr, sendBuf, recvBuf, sendBuf.buf
    {
      && Valid() && OneCommand(Message()) && sent <= |Message()|
      && InStep(Sock(base + Message()[..sent], |base|, []))
    }

    /** The server has got the command and may have answered it. */
    ghost predicate AllSent()
      reads this, kernel, msgr, sendBuf, recvBuf, sendBuf.buf
    {
      && (InStep(Sock(base + Message(), |base|, []))
          || InStep(kernel.Answered(Sock(base + Message(), |base|, []))))
      && OneCommand(Message())
    }

    /** As long as a part of the command is missing, the server waits for it. */
    lemma ServerWaits(before: bytes, command: bytes, k: nat)
      requires OneCommand(command) && k <= |command|
      ensures kernel.Answerable(Sock(before + command[..k], |before|, [])) <==> k == |command|
    {
      var args :| InMemory(args) && Command(args) == command;
      assert (before + command[..k])[|before|..] == command[..k];
      NoCommandIsAPrefix(args, k);
    }

    /** What becomes of the socket when `n` more bytes of the command are taken: the server
        answers only if that was the rest of it. */
    lemma AfterSend(before: bytes, command: bytes, sent: nat, n: nat, s: Sock)
      requires kernel.lockStep && OneCommand(command) && sent + n <= |command|
      requires kernel.MayBecome(Sock(before + command[..sent] + command[sent..][..n], |before|, []), s)
      ensures s == Sock(before + command[..sent + n], |before|, [])
              || (sent + n == |command| && s == kernel.Answered(Sock(before + command, |before|, [])))
    {
      AcceptedGrows(before, command, sent, n);
      ServerWaits(before, command, sent + n);
    }

    static lemma AcceptedGrows(before: bytes, message: bytes, sent: nat, n: nat)
      requires sent + n <= |message|
      ensures before + message[..sent] + message[sent..][..n] == before + message[..sent + n]
      ensures message[..|message|] == message
    {
      assert message[..sent] + message[sent..][..n] == message[..sent + n];
    }

    /** A reconnect was tried, the only one since `opens` sockets had been asked for. If it
        succeeded, the loop goes on with the whole message due on a socket that has accepted
        nothing; if not, the loop stops with its error. */
    ghost predicate Reconnected(step: Step, opens: nat)
      reads this, kernel, msgr, sendBuf, recvBuf
    {
      && kernel.last.opens == opens + 1
      && match step
         case Again(timedOut) =>
           !timedOut && ReconnectGave(kernel.last, None) && sendBuf.sentBytes == 0
           && base == [] && Valid() && Synced() && Current().accepted == []
         case Stop(e) => ReconnectGave(kernel.last, Some(e))
         case _ => false
    }

    /** Why sending failed with `e`, by the last answers. After a loss a reconnect was tried. */
    ghost predicate SendFailed(e: Error, opens: nat)
      reads kernel
    {
      SendStopped(kernel.last, e) && (SendLost(kernel.last) ==> kernel.last.opens > opens)
    }

    /** The reaction to the answer to a send, and to that of the poll if it had to wait. */
    ghost predicate ReactedToSend(step: Step, opens: nat)
      reads this, kernel, msgr, sendBuf, recvBuf
    {
      match kernel.last.send
      case None => step == if sendBuf.sentBytes == sendBuf.writePos then Complete else Again(false)
      case Some(e) =>
        if e == ErrWouldBlock then WaitedForRoom(step, opens)
        else if IsLoss(e) then Reconnected(step, opens)
        else if e == ErrNotConnected then
          if step.Stop? then ConnectGave(kernel.last, Some(step.err))
          else step == Again(false) && ConnectGave(kernel.last, None)
        else step == Stop(e)
    }

    ghost predicate WaitedForRoom(step: Step, opens: nat)
      reads this, kernel, msgr, sendBuf, recvBuf
    {
      match kernel.last.outgoing
      case Ready => step == Again(false)
      case DeadlinePassed => step == Again(true)
      case PollFailed(reasons) =>
        var e := ProcessPollError(reasons);
        if IsLoss(e) then Reconnected(step, opens) else step == Stop(e)
    }

    /** Sending asks nothing of the kernel that has to do with reading. */
    ghost predicate SameReads(before: Answers)
      reads kernel
    {
      && kernel.last.recv == before.recv && kernel.last.left == before.left
      && kernel.last.incoming == before.incoming && kernel.last.opens >= before.opens
    }

    /** Hands the rest of the message to the kernel and counts what it takes. */
    method SendRest() returns (err: Option<Error>)
      requires Delivered() && sendBuf.sentBytes < sendBuf.writePos
      modifies kernel`socks, kernel`last, kernel`patience, sendBuf`sentBytes
      ensures kernel.last == old(kernel.last).(send := kernel.last.send)
      ensures match kernel.last.send
              case Some(e) => err == Some(e) && SystemError(e)
              case None => err == if sendBuf.sentBytes == sendBuf.writePos then None else Some(ErrSendMsgTrunc)
      ensures Delivered()
      ensures err.None? <==> sendBuf.sentBytes == sendBuf.writePos
      ensures err.Some? && err.value != ErrSendMsgTrunc ==> SystemError(err.value)
      ensures old(Synced()) || err == Some(ErrSocketBadFD)
      ensures old(PartSent(sendBuf.sentBytes)) ==>
                match err
                case None => AllSent() && kernel.patience <= old(kernel.patience)
                case Some(e) =>
                  && (e == ErrWouldBlock || e == ErrSendMsgTrunc)
                  && PartSent(sendBuf.sentBytes)
                  && kernel.patience <= old(kernel.patience)
                  && kernel.patience - sendBuf.sentBytes < old(kernel.patience - sendBuf.sentBytes)
    {
      ghost var sent, message := sendBuf.sentBytes, Message();
      var rest := if sendBuf.sentBytes == 0 then sendBuf.buf[..sendBuf.writePos]
                  else sendBuf.buf[sendBuf.sentBytes..sendBuf.writePos];
      assert rest == message[sent..] && sendBuf.buf[..sent] == message[..sent];
      var n;
      n, err := msgr.Send(rest);
      sendBuf.sentBytes := sendBuf.sentBytes + n;
      AcceptedGrows(base, message, sent, n);
      assert sendBuf.buf[..sendBuf.sentBytes] == message[..sendBuf.sentBytes];
      if old(PartSent(sendBuf.sentBytes)) {
        RestSent(sent, n);
      }
    }

    /** The server has got all of the command, or still waits for a part of it. */
    lemma RestSent(sent: nat, n: nat)
      requires Valid() && Synced() && kernel.lockStep && OneCommand(Message()) && sent + n <= |Message()|
      requires kernel.MayBecome(Sock(base + Message()[..sent] + Message()[sent..][..n], |base|, []), Current())
      ensures PartSent(sent + n) || (sent + n == |Message()| && AllSent())
      ensures sent + n == |Message()| ==> AllSent()
    {
      AfterSend(base, Message(), sent, n, Current());
      assert Message()[..|Message()|] == Message();
    }

    method SendStep() returns (step: Step)
      requires Delivered() && sendBuf.sentBytes < sendBuf.writePos
      modifies this`socket, this`base, kernel`socks, kernel`last, kernel`patience, kernel`connects, kernel`timeouts
      modifies msgr`socketFd, sendBuf`sentBytes
      ensures Valid() && (base == old(base) || base == []) && !step.Cut?
      ensures step.Again? ==> Delivered() && sendBuf.sentBytes < sendBuf.writePos
      ensures step.Complete? ==> Delivered() && Synced() && sendBuf.sentBytes == sendBuf.writePos
      ensures step.Stop? ==> IsConnectionError(step.err)
      ensures step == Stop(ErrOperationRetriesFailed) ==>
                kernel.timeouts.connecting - old(kernel.timeouts.connecting) == opts.retryAmount
      ensures kernel.timeouts.income == old(kernel.timeouts.income)
      ensures kernel.timeouts.outgoing == old(kernel.timeouts.outgoing) + if step == Again(true) then 1 else 0
      ensures kernel.timeouts.connecting >= old(kernel.timeouts.connecting)
      ensures ReactedToSend(step, old(kernel.last).opens) && SameReads(old(kernel.last))
      ensures step.Stop? ==> SendFailed(step.err, old(kernel.last).opens)
      ensures !old(Synced()) ==> step.Stop? && !Synced()
      ensures SyncLost() ==> step.Stop?
      ensures old(PartSent(sendBuf.sentBytes)) ==>
                match step
                case Complete => base == old(base) && AllSent() && kernel.patience <= old(kernel.patience)
                case Again(timedOut) =>
                  && base == old(base) && !timedOut
                  && PartSent(sendBuf.sentBytes)
                  && kernel.patience <= old(kernel.patience)
                  && kernel.patience - sendBuf.sentBytes < old(kernel.patience - sendBuf.sentBytes)
                case _ => false
    {
      var err := SendRest();
      if err.None? {
        return Complete;
      }
      step := ReactToSend(err.value);
    }

    /** The reactions to a send that did not complete the message. */
    method ReactToSend(err: Error) returns (step: Step)
      requires Delivered() && sendBuf.sentBytes < sendBuf.writePos
      requires SystemError(err) || err == ErrSendMsgTrunc
      requires kernel.last.send == if err == ErrSendMsgTrunc then None else Some(err)
      requires Synced() || err == ErrSocketBadFD
      modifies this`socket, this`base, kernel`socks, kernel`last, kernel`connects, kernel`timeouts
      modifies msgr`socketFd, sendBuf`sentBytes
      ensures Valid() && (base == old(base) || base == []) && !step.Cut? && !step.Complete?
      ensures step.Again? ==> Delivered() && sendBuf.sentBytes < sendBuf.writePos
      ensures step.Stop? ==> IsConnectionError(step.err)
      ensures step == Stop(ErrOperationRetriesFailed) ==>
                kernel.timeouts.connecting - old(kernel.timeouts.connecting) == opts.retryAmount
      ensures kernel.timeouts.income == old(kernel.timeouts.income)
      ensures kernel.timeouts.outgoing == old(kernel.timeouts.outgoing) + if step == Again(true) then 1 else 0
      ensures kernel.timeouts.connecting >= old(kernel.timeouts.connecting)
      ensures ReactedToSend(step, old(kernel.last).opens) && SameReads(old(kernel.last))
      ensures !old(Synced()) ==> step.Stop? && !Synced()
      ensures SyncLost() ==> step.Stop?
      ensures old(PartSent(sendBuf.sentBytes)) && (err == ErrWouldBlock || err == ErrSendMsgTrunc) ==>
                && base == old(base) && step == Again(false)
                && PartSent(sendBuf.sentBytes)
                && sendBuf.sentBytes == old(sendBuf.sentBytes)
    {
      match err {
        case ErrWouldBlock =>
          step := AwaitRoom();
        case ErrSendMsgTrunc =>
          return Again(false);
        case ErrConnectionReset =>
          step := Restart();
        case ErrConnectionClosed =>
          step := Restart();
        case ErrNotConnected =>
          var e := Connect();
          step := if e.Some? then Stop(e.value) else Again(false);
        case _ =>
          return Stop(err);
      }
    }

    /** The kernel's send buffer is full. */
    method AwaitRoom() returns (step: Step)
      requires Delivered() && Synced() && sendBuf.sentBytes < sendBuf.writePos
      modifies this`socket, this`base, kernel`socks, kernel`last, kernel`connects, kernel`timeouts
      modifies msgr`socketFd, sendBuf`sentBytes
      ensures Valid() && (base == old(base) || base == []) && !step.Complete? && !step.Cut?
      ensures step.Again? ==> Delivered() && sendBuf.sentBytes < sendBuf.writePos
      ensures step.Stop? ==> IsConnectionError(step.err)
      ensures step == Stop(ErrOperationRetriesFailed) ==>
                kernel.timeouts.connecting - old(kernel.timeouts.connecting) == opts.retryAmount
      ensures kernel.timeouts.income == old(kernel.timeouts.income)
      ensures kernel.timeouts.outgoing == old(kernel.timeouts.outgoing) + if step == Again(true) then 1 else 0
      ensures kernel.timeouts.connecting >= old(kernel.timeouts.connecting)
      ensures WaitedForRoom(step, old(kernel.last).opens)
      ensures SameReads(old(kernel.last)) && kernel.last.send == old(kernel.last).send
      ensures SyncLost() ==> step.Stop?
      ensures old(PartSent(sendBuf.sentBytes)) ==>
                && base == old(base) && step == Again(false)
                && PartSent(sendBuf.sentBytes)
                && sendBuf.sentBytes == old(sendBuf.sentBytes)
    {
      if PartSent(sendBuf.sentBytes) {
        ServerWaits(base, Message(), sendBuf.sentBytes);
      }
      var err := Poll(Outgoing);
      if err.Some? {
        if err.value == ErrPollTimeout {
          return Again(true);
        }
        if err.value == ErrConnectionReset || err.value == ErrConnectionClosed {
          step := Restart();
          return;
        }
        return Stop(err.value);
      }
      return Again(false);
    }

    /** A lost connection is replaced, and the whole message is due again. */
    method Restart() returns (step: Step)
      requires Valid() && socket.Some? && 0 < sendBuf.writePos
      modifies this`socket, this`base, kernel`socks, kernel`last, kernel`connects, kernel`timeouts
      modifies msgr`socketFd, sendBuf`sentBytes
      ensures Valid() && base == [] && (step == Again(false) || step.Stop?)
      ensures step.Again? ==> Delivered() && Synced() && sendBuf.sentBytes == 0
      ensures Reconnected(step, old(kernel.last).opens) && OnlyReconnected(old(kernel.last))
      ensures step.Stop? ==> IsConnectionError(step.err)
      ensures step == Stop(ErrOperationRetriesFailed) ==>
                kernel.timeouts.connecting - old(kernel.timeouts.connecting) == opts.retryAmount
      ensures kernel.timeouts == old(kernel.timeouts).(connecting := kernel.timeouts.connecting)
      ensures kernel.timeouts.connecting >= old(kernel.timeouts.connecting)
    {
      var err := Reconnect();
      if err.Some? {
        return Stop(err.value);
      }
      sendBuf.sentBytes := 0;
      assert sendBuf.buf[..0] == [];
      return Again(false);
    }

    /** SendStep, without what the answers were. */
    method CountedSend() returns (step: Step)
      requires Delivered() && sendBuf.sentBytes < sendBuf.writePos
      modifies this`socket, this`base, kernel`socks, kernel`last, kernel`patience, kernel`connects, kernel`timeouts
      modifies msgr`socketFd, sendBuf`sentBytes
      ensures Valid() && (base == old(base) || base == []) && !step.Cut?
      ensures step.Again? ==> Delivered() && sendBuf.sentBytes < sendBuf.writePos
      ensures step.Complete? ==> Delivered() && Synced() && sendBuf.sentBytes == sendBuf.writePos
      ensures step.Stop? ==> IsConnectionError(step.err)
      ensures step == Stop(ErrOperationRetriesFailed) ==>
                kernel.timeouts.connecting - old(kernel.timeouts.connecting) == opts.retryAmount
      ensures kernel.timeouts.income == old(kernel.timeouts.income)
      ensures kernel.timeouts.outgoing == old(kernel.timeouts.outgoing) + if step == Again(true) then 1 else 0
      ensures kernel.timeouts.connecting >= old(kernel.timeouts.connecting)
      ensures SameReads(old(kernel.last))
      ensures step.Stop? ==> SendFailed(step.err, old(kernel.last).opens)
      ensures !old(Synced()) ==> step.Stop? && !Synced()
      ensures SyncLost() ==> step.Stop?
      ensures old(PartSent(sendBuf.sentBytes)) ==>
                match step
                case Complete => base == old(base) && AllSent() && kernel.patience <= old(kernel.patience)
                case Again(timedOut) =>
                  && base == old(base) && !timedOut
                  && PartSent(sendBuf.sentBytes)
                  && kernel.patience <= old(kernel.patience)
                  && kernel.patience - sendBuf.sentBytes < old(kernel.patience - sendBuf.sentBytes)
                case _ => false
    {
      step := SendStep();
    }

    /** One pass through the send loop between two checks of the context. */
    method SendPass(ctx: Context, retriesAvailable: nat) returns (step: Step)
      requires Delivered() && sendBuf.sentBytes < sendBuf.writePos
      modifies this`socket, this`base, kernel`socks, kernel`last, kernel`patience, kernel`connects, kernel`timeouts
      modifies msgr`socketFd, sendBuf`sentBytes, ctx
      ensures Valid() && (base == old(base) || base == []) && !step.Cut?
      ensures step.Again? ==> Delivered() && sendBuf.sentBytes < sendBuf.writePos && retriesAvailable > 0
      ensures step.Complete? ==>
                Delivered() && Synced() && sendBuf.sentBytes == sendBuf.writePos && retriesAvailable > 0
      ensures step == Stop(ErrOperationRetriesFailed) ==>
                || retriesAvailable == 0
                || kernel.timeouts.connecting - old(kernel.timeouts.connecting) == opts.retryAmount
      ensures kernel.timeouts.income == old(kernel.timeouts.income)
      ensures kernel.timeouts.outgoing == old(kernel.timeouts.outgoing) + if step == Again(true) then 1 else 0
      ensures kernel.timeouts.connecting >= old(kernel.timeouts.connecting)
      ensures SameReads(old(kernel.last))
      ensures old(ctx.expired) ==> step == Stop(ErrContext) && kernel.last == old(kernel.last)
      ensures ctx.expired <==> step == Stop(ErrContext)
      ensures !ctx.expired ==>
                if retriesAvailable == 0 then step == Stop(ErrOperationRetriesFailed)
                else step.Stop? ==> SendFailed(step.err, old(kernel.last).opens)
      ensures !old(Synced()) ==> step.Stop? && !Synced()
      ensures SyncLost() ==> step.Stop? && IsConnectionError(step.err)
      ensures old(PartSent(sendBuf.sentBytes) && ctx.CannotExpire()) && retriesAvailable > 0 ==>
                && base == old(base) && ctx.CannotExpire() && kernel.patience <= old(kernel.patience)
                && match step
                   case Complete => AllSent()
                   case Again(timedOut) => !timedOut && PartSent(sendBuf.sentBytes) && SendsLeft() < old(SendsLeft())
                   case _ => false
    {
      var cancelled := ctx.Err();
      if cancelled {
        return Stop(ErrContext);
      }
      if retriesAvailable == 0 {
        return Stop(ErrOperationRetriesFailed);
      }
      step := CountedSend();
      if step.Complete? {
        cancelled := ctx.Err();
        step := if cancelled then Stop(ErrContext) else Complete;
      }
    }

    /** How many passes of the send loop are left at most in lock-step. */
    ghost function SendsLeft(): int
      reads sendBuf, kernel
    {
      sendBuf.writePos - sendBuf.sentBytes + kernel.patience
    }

    /** Sends the whole message. Whatever happens on the way - short sends, polls, reconnects -
        success means that the socket in use has accepted it once, in order, behind what it had
        accepted before the command. */
    method Send(ctx: Context, fuel: nat) returns (r: LoopResult)
      requires Delivered() && sendBuf.sentBytes == 0 < sendBuf.writePos
      modifies this`socket, this`base, kernel`socks, kernel`last, kernel`patience, kernel`connects, kernel`timeouts
      modifies msgr`socketFd, sendBuf`sentBytes, ctx
      ensures Valid() && (base == old(base) || base == [])
      ensures r.Finished? ==>
                Synced() && Current().accepted == base + Message() && sendBuf.sentBytes == sendBuf.writePos
      ensures SameReads(old(kernel.last))
      ensures r == Failed(ErrContext) ==> ctx.expired
      ensures ctx.expired ==> r == Failed(ErrContext) || (r.Unfinished? && old(ctx.expired))
      ensures r.Failed? && !ctx.expired ==>
                if kernel.timeouts.outgoing - old(kernel.timeouts.outgoing) == opts.retryAmount
                then r.err == ErrOperationRetriesFailed
                else SendFailed(r.err, old(kernel.last).opens)
      ensures !old(Synced()) ==> !r.Finished? && !Synced()
      ensures SyncLost() ==> r.Failed? && IsConnectionError(r.err)
      ensures kernel.timeouts.outgoing - old(kernel.timeouts.outgoing) <= opts.retryAmount
      ensures r == Failed(ErrOperationRetriesFailed) ==>
                || kernel.timeouts.outgoing - old(kernel.timeouts.outgoing) == opts.retryAmount
                || kernel.timeouts.connecting - old(kernel.timeouts.connecting) >= opts.retryAmount
      ensures kernel.timeouts.outgoing - old(kernel.timeouts.outgoing) == opts.retryAmount ==> !r.Finished?
      ensures kernel.timeouts.income == old(kernel.timeouts.income) && kernel.timeouts.NotLess(old(kernel.timeouts))
      ensures old(PartSent(0) && ctx.CannotExpire()) ==>
                && base == old(base) && !r.Failed? && ctx.CannotExpire()
                && kernel.patience <= old(kernel.patience)
                && (fuel > |Message()| + old(kernel.patience) ==> r == Finished)
                && (r == Finished ==> AllSent())
    {
      var retriesAvailable := opts.retryAmount;
      var left: nat := fuel;
      ghost var lock, synced, need := PartSent(0) && ctx.CannotExpire(), Synced(), |Message()| + kernel.patience;
      assert sendBuf.buf[..0] == [] && Message()[..0] == [];
      while true
        invariant Delivered() && sendBuf.sentBytes < sendBuf.writePos
        invariant base == old(base) || base == []
        invariant SameReads(old(kernel.last)) && (!ctx.expired || old(ctx.expired))
        invariant synced == Synced()
        invariant 0 <= retriesAvailable <= opts.retryAmount
        invariant kernel.timeouts.outgoing == old(kernel.timeouts.outgoing) + opts.retryAmount - retriesAvailable
        invariant kernel.timeouts.income == old(kernel.timeouts.income)
        invariant kernel.timeouts.connecting >= old(kernel.timeouts.connecting)
        invariant lock ==>
                    && ctx.CannotExpire()
                    && PartSent(sendBuf.sentBytes) && base == old(base)
                    && kernel.patience <= old(kernel.patience)
                    && (fuel > need ==> left > SendsLeft())
                    && retriesAvailable == opts.retryAmount
        decreases left
      {
        if left == 0 {
          return Unfinished;
        }
        left := left - 1;
        var step := SendPass(ctx, retriesAvailable);
        match step {
          case Complete =>
            return Finished;
          case Stop(err) =>
            return Failed(err);
          case Again(timedOut) =>
            retriesAvailable := if timedOut then retriesAvailable - 1 else retriesAvailable;
        }
      }
    }

    /** As many polls of one kind as there are attempts have timed out. */
    twostate predicate PollsTimedOut()
      reads kernel
    {
      kernel.timeouts.Exhausted(old(kernel.timeouts), opts.retryAmount)
    }

    // ---------------------------------------------------------------- receiving

    /** The reply to the current command, if the environment is in lock-step. */
    ghost function ReplyBytes(): bytes
      reads this, sendBuf, sendBuf.buf
    {
      kernel.reply(base + Message())
    }

    /** The server has got the command, and nothing of the reply has been read. */
    ghost predicate AwaitsReply()
      reads this, kernel, msgr, sendBuf, recvBuf, sendBuf.buf
    {
      AllSent() && recvBuf.writePos == 0
    }

    /** The first `n` bytes of the reply have been read, the others wait in the kernel. */
    ghost predicate ReplyRead(n: nat)
      reads this, kernel, msgr, sendBuf, recvBuf, sendBuf.buf, recvBuf.buf
    {
      var accepted := base + Message();
      && n <= |ReplyBytes()|
      && InStep(Sock(accepted, |accepted|, ReplyBytes()[n..]))
      && Received() == ReplyBytes()[..n]
    }

    /** Before the first successful read of a reply; the buffer has length `len`. */
    ghost predicate Waiting(len: nat)
      reads this, kernel, msgr, sendBuf, recvBuf, sendBuf.buf
    {
      AwaitsReply() && recvBuf.buf.Length == len
    }

    /** A buffer of length `len` was filled and enlarged, and the reply goes on. */
    ghost predicate HalfRead(len: nat)
      reads this, kernel, msgr, sendBuf, recvBuf, sendBuf.buf, recvBuf.buf
    {
      && 0 < len < |ReplyBytes()| && len < opts.receiveBufMaxLen
      && recvBuf.buf.Length == NextLen(len, opts.receiveBufMaxLen)
      && ReplyRead(len)
    }

    /** How many passes of the receive loop a reply can still take; 0 when none is on its way. */
    ghost function ReadsLeft(len: nat): nat
      reads this, kernel, msgr, sendBuf, recvBuf, sendBuf.buf, recvBuf.buf
    {
      if Waiting(len) then kernel.patience + 2 else if HalfRead(len) then 1 else 0
    }

    /** The last read is done: as much of the reply as fits after one step of growth is there. */
    ghost predicate ReadOut(len: nat)
      reads this, kernel, msgr, sendBuf, recvBuf, sendBuf.buf, recvBuf.buf
    {
      var max, n := opts.receiveBufMaxLen, |ReplyBytes()|;
      && (len == max ==> n <= len) && NextLen(len, max) >= 0
      && recvBuf.buf.Length == (if n <= len then len else NextLen(len, max))
      && ReplyRead(if n <= NextLen(len, max) then n else NextLen(len, max))
    }

    lemma NothingToAnswer(accepted: bytes, queue: bytes)
      ensures !kernel.Answerable(Sock(accepted, |accepted|, queue))
    {
      assert accepted[|accepted|..] == [];
    }

    /** The first read that finds something gets the reply from its beginning. */
    lemma FirstRead(command: bytes, before: bytes, s: Sock, at: Sock, kept: bytes, room: nat,
                    err: Option<Error>, after: Sock)
      requires kernel.lockStep && OneCommand(command)
      requires s == Sock(before + command, |before|, [])
               || s == kernel.Answered(Sock(before + command, |before|, []))
      requires msgr.LockStepRead(s, at, kept, room, err) && msgr.kernel == kernel
      requires kernel.MayBecome(at.(queue := at.queue[|kept|..]), after)
      ensures err == Some(ErrWouldBlock) ==>
                && kernel.Answerable(at)
                && (after == Sock(before + command, |before|, [])
                    || after == kernel.Answered(Sock(before + command, |before|, [])))
      ensures err != Some(ErrWouldBlock) ==>
                var accepted, reply := before + command, kernel.reply(before + command);
                && |kept| <= |reply| && kept == reply[..|kept|]
                && |kept| == (if room < |reply| then room else |reply|)
                && after == Sock(accepted, |accepted|, reply[|kept|..])
    {
      ServerWaits(before, command, |command|);
      assert command[..|command|] == command;
      var reply := kernel.reply(before + command);
      assert [] + reply == reply;
      NothingToAnswer(before + command, at.queue[|kept|..]);
      NothingToAnswer(before + command, reply);
    }

    /** Every later read goes on where the last one stopped. */
    lemma NextRead(accepted: bytes, reply: bytes, n: nat, at: Sock, kept: bytes, room: nat,
                   err: Option<Error>, after: Sock)
      requires kernel.lockStep && n < |reply| && msgr.kernel == kernel
      requires msgr.LockStepRead(Sock(accepted, |accepted|, reply[n..]), at, kept, room, err)
      requires kernel.MayBecome(at.(queue := at.queue[|kept|..]), after)
      ensures err != Some(ErrWouldBlock)
      ensures n + |kept| == (if n + room < |reply| then n + room else |reply|)
      ensures reply[..n] + kept == reply[..n + |kept|]
      ensures after == Sock(accepted, |accepted|, reply[n + |kept|..])
    {
      NothingToAnswer(accepted, reply[n..]);
      NothingToAnswer(accepted, at.queue[|kept|..]);
      assert reply[n..][|kept|..] == reply[n + |kept|..];
    }

    /** One read. In lock-step it either finds nothing, or takes as much of the reply as there
        is room for and notices what it left behind only if it filled the whole buffer. */
    method ReadOnce() returns (err: Option<Error>, ghost kept: bytes)
      requires Valid() && recvBuf.writePos < recvBuf.buf.Length
      modifies kernel`socks, kernel`last, kernel`patience, kernel`handed, recvBuf`writePos, recvBuf.buf
      ensures Valid()
      ensures kernel.handed == old(kernel.handed) + kept && Received() == old(Received()) + kept
      ensures kernel.last == old(kernel.last).(recv := kernel.last.recv, left := kernel.last.left)
      ensures err == ReadError(kernel.last, recvBuf.buf.Length)
      ensures err.None? ==> kept != []
      ensures err.Some? && err.value != ErrRecvMsgTrunc ==>
                kept == [] && (SystemError(err.value) || err.value == ErrRecvMsgCTrunc)
      ensures !old(Synced()) ==> err == Some(ErrSocketBadFD)
      ensures old(AwaitsReply()) ==>
                && WasFirstRead(err) && kernel.patience <= old(kernel.patience)
                && (err == Some(ErrWouldBlock) ==> kernel.patience < old(kernel.patience))
      ensures old(recvBuf.writePos > 0 && recvBuf.writePos < |ReplyBytes()| && ReplyRead(recvBuf.writePos)) ==>
                var len, reply := recvBuf.buf.Length, ReplyBytes();
                && err == None && kernel.patience <= old(kernel.patience)
                && ReplyRead(if len < |reply| then len else |reply|)
    {
      ghost var at;
      ghost var n := recvBuf.writePos;
      err, kept, at := msgr.Receive(recvBuf);
      if old(AwaitsReply()) {
        FirstReadDone(old(Current()), at, kept, err);
      } else if old(recvBuf.writePos < |ReplyBytes()| && ReplyRead(recvBuf.writePos)) {
        NextRead(base + Message(), ReplyBytes(), n, at, kept, recvBuf.buf.Length - n, err, Current());
      }
    }

    /** How the first read of a reply ends: it found nothing yet, or as much of the reply as there
        was room for, and then it says whether that was all. */
    ghost predicate WasFirstRead(err: Option<Error>)
      reads this, kernel, msgr, sendBuf, recvBuf, sendBuf.buf, recvBuf.buf
    {
      var len, n := recvBuf.buf.Length, |ReplyBytes()|;
      match err
      case Some(ErrWouldBlock) => AwaitsReply()
      case Some(ErrRecvMsgTrunc) => len < n && ReplyRead(len)
      case None => n <= len && ReplyRead(n)
      case _ => false
    }

    lemma FirstReadDone(s: Sock, at: Sock, kept: bytes, err: Option<Error>)
      requires Valid() && Synced() && kernel.lockStep && OneCommand(Message())
      requires s == Sock(base + Message(), |base|, []) || s == kernel.Answered(Sock(base + Message(), |base|, []))
      requires msgr.LockStepRead(s, at, kept, recvBuf.buf.Length, err)
      requires kernel.MayBecome(at.(queue := at.queue[|kept|..]), Current())
      requires Received() == [] + kept && recvBuf.writePos == |kept|
      requires err == Some(ErrRecvMsgTrunc) <==>
                 err != Some(ErrWouldBlock) && |kept| == recvBuf.buf.Length && Current().queue != []
      ensures WasFirstRead(err) && (err == Some(ErrWouldBlock) ==> kernel.Answerable(at))
    {
      FirstRead(Message(), base, s, at, kept, recvBuf.buf.Length, err, Current());
      assert [] + kept == kept;
    }

    /** A full buffer is enlarged, or the connection is given up for a fresh one. */
    method MakeRoom() returns (step: Step)
      requires Valid() && Synced()
      modifies this`socket, this`base, kernel`socks, kernel`last, kernel`connects, kernel`timeouts
      modifies msgr`socketFd, recvBuf`buf
      ensures Valid() && Received() == old(Received())
      ensures recvBuf.buf == old(recvBuf.buf) || fresh(recvBuf.buf)
      ensures kernel.timeouts == old(kernel.timeouts).(connecting := kernel.timeouts.connecting)
      ensures kernel.timeouts.connecting >= old(kernel.timeouts.connecting)
      ensures if old(recvBuf.buf.Length) < opts.receiveBufMaxLen
              then step == Again(false) && recvBuf.buf.Length == NextLen(old(recvBuf.buf.Length), opts.receiveBufMaxLen)
                   && recvBuf.writePos < recvBuf.buf.Length
                   && base == old(base) && Synced()
                   && kernel.socks == old(kernel.socks) && msgr.socketFd == old(msgr.socketFd)
                   && (old(ReplyRead(recvBuf.writePos)) ==> ReplyRead(recvBuf.writePos))
              else step.Stop? && GivenUp(step.err) && base == []
      ensures kernel.last.recv == old(kernel.last).recv && kernel.last.left == old(kernel.last).left
      ensures recvBuf.buf.Length >= old(recvBuf.buf.Length)
      ensures step == Stop(ErrOperationRetriesFailed) ==>
                kernel.timeouts.connecting - old(kernel.timeouts.connecting) == opts.retryAmount
    {
      var ok := IncreaseRecvBuf();
      if ok {
        assert recvBuf.buf[..recvBuf.writePos] == recvBuf.buf[..old(recvBuf.buf.Length)][..recvBuf.writePos];
        return Again(false);
      }
      var err := Reconnect();
      if err.Some? {
        return Stop(err.value);
      }
      return Stop(ErrRecvBufTooShort);
    }

    /** The reply was longer than the largest buffer. The error is ErrRecvBufTooShort if and only if
        the reconnect succeeded, and then there is a fresh, connected socket; otherwise it is what
        the reconnect gave. */
    ghost predicate GivenUp(err: Error)
      reads this, kernel, msgr, sendBuf, recvBuf
    {
      && TooLong(kernel.last, err)
      && if err == ErrRecvBufTooShort
         then Valid() && Synced() && Current().accepted == [] && (kernel.lockStep ==> Current() == Sock([], 0, []))
         else IsConnectionError(err)
    }

    /** The connection was closed by the server: a reconnect was tried, and the loop goes on only when
        the whole message was sent once more. Otherwise it stops with what reconnecting or sending
        stopped with. */
    ghost predicate Resent(step: Step, opens: nat)
      reads this, kernel, msgr, sendBuf, recvBuf, sendBuf.buf
    {
      && kernel.last.opens > opens
      && match step
         case Again(timedOut) => !timedOut && Valid() && Synced() && Current().accepted == Message()
         case Stop(e) =>
           ReconnectGave(kernel.last, Some(e)) || SendStopped(kernel.last, e)
           || e == ErrOperationRetriesFailed || e == ErrContext
         case Cut => true
         case _ => false
    }

    /** Why the receive loop failed with `e`: the reply was too long, or by the last answers. */
    ghost predicate ReceiveFailed(e: Error)
      reads kernel, recvBuf
    {
      if ReadError(kernel.last, recvBuf.buf.Length) == Some(ErrRecvMsgTrunc)
      then recvBuf.buf.Length == opts.receiveBufMaxLen && TooLong(kernel.last, e)
      else ReceiveStopped(kernel.last, recvBuf.buf.Length, e)
    }

    /** The reaction to a failed read of a buffer of length `len`. */
    ghost predicate ReactedToRead(err: Error, len: nat, step: Step, opens: nat)
      reads this, kernel, msgr, sendBuf, recvBuf, sendBuf.buf
    {
      if err == ErrWouldBlock then
        match kernel.last.incoming
        case Ready => step == Again(false)
        case DeadlinePassed => step == Again(true)
        case PollFailed(reasons) => step == Stop(ProcessPollError(reasons))
      else if err == ErrRecvMsgTrunc then
        if len < opts.receiveBufMaxLen then step == Again(false) else step.Stop? && GivenUp(step.err)
      else if err == ErrNotConnected then
        if step.Stop? then ConnectGave(kernel.last, Some(step.err))
        else step == Again(false) && ConnectGave(kernel.last, None)
      else if err == ErrConnectionClosed then Resent(step, opens)
      else step == Stop(err)
    }

    /** The connection was closed while the driver waited: connect anew and send once more.
        What has been read of a reply stays in the buffer. */
    method Resend(ctx: Context, fuel: nat) returns (step: Step)
      requires Valid() && Synced() && 0 < sendBuf.writePos
      modifies this`socket, this`base, kernel`socks, kernel`last, kernel`patience, kernel`connects, kernel`timeouts
      modifies msgr`socketFd, sendBuf`sentBytes, ctx
      ensures Valid() && !step.Complete? && step != Again(true) && base == []
      ensures step.Again? ==> Synced() && Current().accepted == Message() && sendBuf.sentBytes == sendBuf.writePos
      ensures SyncLost() ==> step.Stop? && IsConnectionError(step.err)
      ensures Resent(step, old(kernel.last).opens)
      ensures kernel.last.recv == old(kernel.last).recv && kernel.last.left == old(kernel.last).left
      ensures step == Stop(ErrContext) ==> ctx.expired
      ensures ctx.expired ==> step == Stop(ErrContext) || old(ctx.expired)
      ensures kernel.timeouts.income == old(kernel.timeouts.income) && kernel.timeouts.NotLess(old(kernel.timeouts))
      ensures step == Stop(ErrOperationRetriesFailed) ==> PollsTimedOut()
    {
      step := Restart();
      if step.Stop? {
        return;
      }
      var r := Send(ctx, fuel);
      match r {
        case Finished => return Again(false);
        case Failed(err) => return Stop(err);
        case Unfinished => return Cut;
      }
    }

    static lemma Chunks(a: bytes, b: bytes, c: bytes)
      ensures a + b + c == a + (b + c)
    {
    }

    method ReceiveStep(ctx: Context, fuel: nat, ghost len: nat) returns (step: Step, ghost kept: bytes)
      requires Valid() && 0 < sendBuf.writePos && recvBuf.writePos < recvBuf.buf.Length
      modifies this`socket, this`base, kernel, msgr`socketFd, sendBuf`sentBytes, recvBuf, recvBuf.buf, ctx
      ensures Valid() && (recvBuf.buf == old(recvBuf.buf) || fresh(recvBuf.buf))
      ensures kernel.handed == old(kernel.handed) + kept && Received() == old(Received()) + kept
      ensures step.Again? ==> recvBuf.writePos < recvBuf.buf.Length
      ensures step.Complete? <==> ReadError(kernel.last, old(recvBuf.buf.Length)) == None
      ensures !step.Complete? ==>
                ReactedToRead(ReadError(kernel.last, old(recvBuf.buf.Length)).value,
                              old(recvBuf.buf.Length), step, old(kernel.last).opens)
      ensures step == Stop(ErrContext) ==> ctx.expired
      ensures ctx.expired ==> step == Stop(ErrContext) || old(ctx.expired)
      ensures step.Complete? ==> kept != []
      ensures step.Stop? || step.Complete? ==> recvBuf.buf.Length == old(recvBuf.buf.Length)
      ensures recvBuf.buf.Length >= old(recvBuf.buf.Length)
      ensures kernel.timeouts.income == old(kernel.timeouts.income) + if step == Again(true) then 1 else 0
      ensures kernel.timeouts.NotLess(old(kernel.timeouts))
      ensures step == Stop(ErrOperationRetriesFailed) ==> PollsTimedOut()
      ensures !old(Synced()) ==> step == Stop(ErrSocketBadFD) && !Synced()
      ensures SyncLost() ==> step.Stop? && IsConnectionError(step.err)
      ensures old(Waiting(len) || HalfRead(len)) ==> ctx.expired == old(ctx.expired)
      ensures old(Waiting(len)) ==>
                match step
                case Again(timedOut) =>
                  && !timedOut && base == old(base) && kernel.patience <= old(kernel.patience)
                  && ((Waiting(len) && kernel.patience < old(kernel.patience)) || HalfRead(len))
                case Complete =>
                  base == old(base) && kernel.patience <= old(kernel.patience) && ReadOut(len)
                case Stop(err) =>
                  && len == opts.receiveBufMaxLen < |old(ReplyBytes())| && GivenUp(err)
                  && kernel.patience <= old(kernel.patience)
                case Cut => false
      ensures old(HalfRead(len)) ==>
                step == Complete && base == old(base) && kernel.patience <= old(kernel.patience) && ReadOut(len)
    {
      var err;
      err, kept := ReadOnce();
      if err.None? {
        return Complete, kept;
      }
      step := React(ctx, err.value, fuel);
    }

    /** The reactions to a read that gave no complete reply. */
    method React(ctx: Context, err: Error, fuel: nat) returns (step: Step)
      requires Valid() && 0 < sendBuf.writePos
      requires Synced() || err == ErrSocketBadFD
      requires err != ErrRecvMsgTrunc ==>
                 recvBuf.writePos < recvBuf.buf.Length && (SystemError(err) || err == ErrRecvMsgCTrunc)
      modifies this`socket, this`base, kernel`socks, kernel`last, kernel`patience, kernel`connects, kernel`timeouts
      modifies msgr`socketFd, sendBuf`sentBytes, recvBuf`buf, ctx
      ensures Valid() && (recvBuf.buf == old(recvBuf.buf) || fresh(recvBuf.buf))
      ensures !step.Complete? && Received() == old(Received())
      ensures step.Again? ==> recvBuf.writePos < recvBuf.buf.Length
      ensures step.Stop? ==> recvBuf.buf.Length == old(recvBuf.buf.Length)
      ensures recvBuf.buf.Length >= old(recvBuf.buf.Length)
      ensures kernel.timeouts.income == old(kernel.timeouts.income) + if step == Again(true) then 1 else 0
      ensures kernel.timeouts.NotLess(old(kernel.timeouts))
      ensures step == Stop(ErrOperationRetriesFailed) ==> PollsTimedOut()
      ensures ReactedToRead(err, old(recvBuf.buf.Length), step, old(kernel.last).opens)
      ensures kernel.last.recv == old(kernel.last).recv && kernel.last.left == old(kernel.last).left
      ensures step == Stop(ErrContext) ==> ctx.expired
      ensures ctx.expired ==> step == Stop(ErrContext) || old(ctx.expired)
      ensures err == ErrSocketBadFD ==> step == Stop(err) && (Synced() <==> old(Synced()))
      ensures SyncLost() ==> step.Stop? && IsConnectionError(step.err)
      ensures err == ErrWouldBlock && old(AwaitsReply()) ==>
                && step == Again(false) && AwaitsReply() && recvBuf.buf == old(recvBuf.buf)
                && base == old(base) && kernel.patience == old(kernel.patience) && ctx.expired == old(ctx.expired)
      ensures err == ErrRecvMsgTrunc && old(recvBuf.buf.Length) < opts.receiveBufMaxLen ==>
                && step == Again(false) && recvBuf.buf.Length == NextLen(old(recvBuf.buf.Length), opts.receiveBufMaxLen)
                && base == old(base) && kernel.patience == old(kernel.patience) && ctx.expired == old(ctx.expired)
                && (old(ReplyRead(recvBuf.writePos)) ==> ReplyRead(recvBuf.writePos))
      ensures err == ErrRecvMsgTrunc && old(recvBuf.buf.Length) == opts.receiveBufMaxLen ==>
                && step.Stop? && GivenUp(step.err)
                && kernel.patience == old(kernel.patience) && ctx.expired == old(ctx.expired)
    {
      if err == ErrWouldBlock {
        step := AwaitData();
      } else if err == ErrRecvMsgTrunc {
        step := MakeRoom();
      } else {
        step := Recover(ctx, err, fuel);
      }
    }

    /** ReceiveStep, seen as progress towards the end of the loop. */
    method CountedStep(ctx: Context, fuel: nat, ghost len: nat) returns (step: Step, ghost kept: bytes)
      requires Valid() && 0 < sendBuf.writePos && recvBuf.writePos < recvBuf.buf.Length
      modifies this`socket, this`base, kernel, msgr`socketFd, sendBuf`sentBytes, recvBuf, recvBuf.buf, ctx
      ensures Valid() && (recvBuf.buf == old(recvBuf.buf) || fresh(recvBuf.buf))
      ensures kernel.handed == old(kernel.handed) + kept && Received() == old(Received()) + kept
      ensures step.Again? ==> recvBuf.writePos < recvBuf.buf.Length
      ensures step.Stop? && step.err != ErrContext ==> ReceiveFailed(step.err)
      ensures step == Stop(ErrContext) ==> ctx.expired
      ensures ctx.expired ==> step == Stop(ErrContext) || old(ctx.expired)
      ensures step.Complete? ==> kept != []
      ensures step.Stop? || step.Complete? ==> recvBuf.buf.Length == old(recvBuf.buf.Length)
      ensures recvBuf.buf.Length >= old(recvBuf.buf.Length)
      ensures kernel.timeouts.income == old(kernel.timeouts.income) + if step == Again(true) then 1 else 0
      ensures kernel.timeouts.NotLess(old(kernel.timeouts))
      ensures step == Stop(ErrOperationRetriesFailed) ==> PollsTimedOut()
      ensures !old(Synced()) ==> step.Stop? && !Synced()
      ensures SyncLost() ==> step.Stop? && IsConnectionError(step.err)
      ensures old(ReadsLeft(len)) > 0 ==>
                InStepPass(step, len, old(base), old(kernel.patience), old(ReadsLeft(len)), |old(ReplyBytes())|)
      ensures old(ReadsLeft(len)) > 0 ==> ctx.expired == old(ctx.expired)
    {
      step, kept := ReceiveStep(ctx, fuel, len);
    }

    /** How a pass ends in lock-step. */
    ghost predicate InStepPass(step: Step, len: nat, b: bytes, patience: nat, left: nat, replyLen: nat)
      reads this, kernel, msgr, sendBuf, recvBuf, sendBuf.buf, recvBuf.buf
    {
      match step
      case Again(timedOut) =>
        !timedOut && base == b && kernel.patience <= patience && 0 < ReadsLeft(len) < left
      case Complete =>
        base == b && kernel.patience <= patience && ReadOut(len)
      case Stop(err) => len == opts.receiveBufMaxLen < replyLen && GivenUp(err) && kernel.patience <= patience
      case Cut => false
    }

    /** One pass through the receive loop between two checks of the context. */
    method ReceivePass(ctx: Context, retriesAvailable: nat, fuel: nat, ghost len: nat)
      returns (step: Step, ghost kept: bytes)
      requires Valid() && 0 < sendBuf.writePos && recvBuf.writePos < recvBuf.buf.Length
      modifies this`socket, this`base, kernel, msgr`socketFd, sendBuf`sentBytes, recvBuf, recvBuf.buf, ctx
      ensures Valid() && (recvBuf.buf == old(recvBuf.buf) || fresh(recvBuf.buf))
      ensures kernel.handed == old(kernel.handed) + kept && Received() == old(Received()) + kept
      ensures step.Again? ==> recvBuf.writePos < recvBuf.buf.Length
      ensures old(ctx.expired) ==> step == Stop(ErrContext) && kernel.last == old(kernel.last)
      ensures ctx.expired <==> step == Stop(ErrContext)
      ensures !ctx.expired ==>
                if retriesAvailable == 0 then step == Stop(ErrOperationRetriesFailed)
                else step.Stop? ==> ReceiveFailed(step.err)
      ensures step.Complete? ==> kept != []
      ensures step.Again? || step.Complete? ==> retriesAvailable > 0
      ensures recvBuf.buf.Length >= old(recvBuf.buf.Length)
      ensures kernel.timeouts.income == old(kernel.timeouts.income) + if step == Again(true) then 1 else 0
      ensures kernel.timeouts.NotLess(old(kernel.timeouts))
      ensures step == Stop(ErrOperationRetriesFailed) ==>
                retriesAvailable == 0 || PollsTimedOut()
      ensures !old(Synced()) ==> step.Stop? && !Synced()
      ensures SyncLost() ==> step.Stop? && IsConnectionError(step.err)
      ensures old(ReadsLeft(len) > 0 && ctx.CannotExpire()) && retriesAvailable > 0 ==>
                && InStepPass(step, len, old(base), old(kernel.patience), old(ReadsLeft(len)), |old(ReplyBytes())|)
                && ctx.CannotExpire()
    {
      var cancelled := ctx.Err();
      kept := [];
      Chunks(kernel.handed, [], []);
      if cancelled {
        step := Stop(ErrContext);
      } else if retriesAvailable == 0 {
        step := Stop(ErrOperationRetriesFailed);
      } else {
        step, kept := CountedStep(ctx, fuel, len);
        if step.Complete? {
          cancelled := ctx.Err();
          step := if cancelled then Stop(ErrContext) else Complete;
        }
      }
    }

    /** The reactions to the other errors of a read. */
    method Recover(ctx: Context, err: Error, fuel: nat) returns (step: Step)
      requires Valid() && 0 < sendBuf.writePos && (SystemError(err) || err == ErrRecvMsgCTrunc) && err != ErrWouldBlock
      requires Synced() || err == ErrSocketBadFD
      modifies this`socket, this`base, kernel`socks, kernel`last, kernel`patience, kernel`connects, kernel`timeouts
      modifies msgr`socketFd, sendBuf`sentBytes, ctx
      ensures Valid() && !step.Complete? && step != Again(true)
      ensures kernel.timeouts.income == old(kernel.timeouts.income) && kernel.timeouts.NotLess(old(kernel.timeouts))
      ensures step == Stop(ErrOperationRetriesFailed) ==> PollsTimedOut()
      ensures ReactedToRead(err, recvBuf.buf.Length, step, old(kernel.last).opens)
      ensures kernel.last.recv == old(kernel.last).recv && kernel.last.left == old(kernel.last).left
      ensures step == Stop(ErrContext) ==> ctx.expired
      ensures ctx.expired ==> step == Stop(ErrContext) || old(ctx.expired)
      ensures err == ErrSocketBadFD ==> step == Stop(err) && (Synced() <==> old(Synced()))
      ensures SyncLost() ==> step.Stop? && IsConnectionError(step.err)
    {
      match err {
        case ErrNotConnected =>
          var e := Connect();
          step := if e.Some? then Stop(e.value) else Again(false);
        case ErrConnectionClosed =>
          step := Resend(ctx, fuel);
        case _ =>
          return Stop(err);
      }
    }

    method AwaitData() returns (step: Step)
      requires Valid() && Synced()
      modifies kernel`socks, kernel`last, kernel`timeouts
      ensures Valid() && (step.Again? || step.Stop?) && step != Stop(ErrOperationRetriesFailed)
      ensures kernel.timeouts.income == old(kernel.timeouts.income) + if step == Again(true) then 1 else 0
      ensures ReactedToRead(ErrWouldBlock, recvBuf.buf.Length, step, old(kernel.last).opens)
      ensures kernel.last.recv == old(kernel.last).recv && kernel.last.left == old(kernel.last).left
      ensures kernel.timeouts.NotLess(old(kernel.timeouts))
      ensures old(AwaitsReply()) ==> AwaitsReply() && step == Again(false)
    {
      if AwaitsReply() {
        NothingToAnswer(base + Message(), kernel.reply(base + Message()));
      }
      var err := Poll(Income);
      if err.Some? {
        if err.value == ErrPollTimeout {
          return Again(true);
        }
        return Stop(err.value);
      }
      return Again(false);
    }

    /** Reads a reply behind what is in the buffer already. For every behaviour of the kernel the
        buffer gains exactly the chunks that were read, in order. In lock-step the reply arrives
        whole if and only if it fits after at most one step of growth: a longer one is cut off
        unnoticed, or rejected if the buffer has its largest length already. */
    method Receive(ctx: Context, fuel: nat) returns (r: LoopResult, ghost kept: bytes)
      requires Valid() && 0 < sendBuf.writePos && recvBuf.writePos < recvBuf.buf.Length
      modifies this`socket, this`base, kernel, msgr`socketFd, sendBuf`sentBytes, recvBuf, recvBuf.buf, ctx
      ensures Valid() && (recvBuf.buf == old(recvBuf.buf) || fresh(recvBuf.buf))
      ensures kernel.handed == old(kernel.handed) + kept && Received() == old(Received()) + kept
      ensures recvBuf.buf.Length >= old(recvBuf.buf.Length)
      ensures r == Failed(ErrContext) ==> ctx.expired
      ensures ctx.expired ==> r == Failed(ErrContext) || (r.Unfinished? && old(ctx.expired))
      ensures r.Failed? && !ctx.expired ==>
                if kernel.timeouts.income - old(kernel.timeouts.income) == opts.retryAmount
                then r.err == ErrOperationRetriesFailed
                else ReceiveFailed(r.err)
      ensures r.Finished? ==> kept != []
      ensures !old(Synced()) ==> !r.Finished? && !Synced()
      ensures SyncLost() ==> r.Failed? && IsConnectionError(r.err)
      ensures kernel.timeouts.income - old(kernel.timeouts.income) <= opts.retryAmount
      ensures kernel.timeouts.income - old(kernel.timeouts.income) == opts.retryAmount ==> !r.Finished?
      ensures r == Failed(ErrOperationRetriesFailed) ==> PollsTimedOut()
      ensures old(AwaitsReply() && ctx.CannotExpire()) ==>
                var len := old(recvBuf.buf.Length);
                && (fuel > old(kernel.patience) + 1 ==> !r.Unfinished?)
                && ctx.CannotExpire() && kernel.patience <= old(kernel.patience)
                && match r
                   case Unfinished => true
                   case Failed(err) => len == opts.receiveBufMaxLen < |old(ReplyBytes())| && GivenUp(err)
                   case Finished => base == old(base) && ReadOut(len)
    {
      var retriesAvailable := opts.retryAmount;
      var left: nat := fuel;
      kept := [];
      ghost var len, handed, received, timeouts := recvBuf.buf.Length, kernel.handed, Received(), kernel.timeouts;
      ghost var lock, synced, enough := AwaitsReply() && ctx.CannotExpire(), Synced(), fuel > kernel.patience + 1;
      while true
        invariant Valid() && recvBuf.writePos < recvBuf.buf.Length && recvBuf.buf.Length >= len
        invariant recvBuf.buf == old(recvBuf.buf) || fresh(recvBuf.buf)
        invariant kernel.handed == handed + kept && Received() == received + kept
        invariant !ctx.expired || old(ctx.expired)
        invariant synced == Synced()
        invariant 0 <= retriesAvailable <= opts.retryAmount
        invariant kernel.timeouts.income == timeouts.income + opts.retryAmount - retriesAvailable
        invariant kernel.timeouts.NotLess(timeouts)
        invariant lock ==>
                    && ctx.CannotExpire() && retriesAvailable == opts.retryAmount
                    && base == old(base) && kernel.patience <= old(kernel.patience)
                    && 0 < ReadsLeft(len) && (enough ==> ReadsLeft(len) <= left)
        decreases left
      {
        if left == 0 {
          return Unfinished, kept;
        }
        left := left - 1;
        var step;
        ghost var chunk;
        step, chunk := ReceivePass(ctx, retriesAvailable, left, len);
        Chunks(handed, kept, chunk);
        Chunks(received, kept, chunk);
        kept := kept + chunk;
        match step {
          case Complete =>
            return Finished, kept;
          case Stop(err) =>
            return Failed(err), kept;
          case Cut =>
            return Unfinished, kept;
          case Again(timedOut) =>
            retriesAvailable := if timedOut then retriesAvailable - 1 else retriesAvailable;
        }
      }
    }

    // ---------------------------------------------------------------- processing

    /** Why a command was not sent: the first argument that is refused is not supported, or it does
        not fit although the buffer has its largest length. */
    ghost predicate CannotEncode(cmdArgs: seq<Arg>, e: Error)
      reads sendBuf
    {
      match e
      case ErrUnsupportedDataType => StopsAtType(cmdArgs, sendBuf.buf.Length)
      case ErrSendBufTooShort =>
        sendBuf.buf.Length == opts.sendBufMaxLen && StopsAtLength(cmdArgs, sendBuf.buf.Length)
      case _ => false
    }

    /** Encodes a command, enlarging the buffer as often as necessary and possible. */
    method EncodeGrowing(cmdArgs: seq<Arg>) returns (err: Option<Error>)
      requires Valid() && cmdArgs != [] && sendBuf.writePos == 0
      modifies coder`sendBuf, sendBuf`writePos, sendBuf`buf, sendBuf.buf
      ensures Valid() && (sendBuf.buf == old(sendBuf.buf) || fresh(sendBuf.buf))
      ensures err.None? <==> AllSupported(cmdArgs) && |Encoding(cmdArgs)| <= opts.sendBufMaxLen
      ensures err.None? ==> Message() == Encoding(cmdArgs)
      ensures err.Some? ==> sendBuf.writePos == 0 && CannotEncode(cmdArgs, err.value)
      ensures AllSupported(cmdArgs) ==>
                && sendBuf.buf.Length == GrownLen(old(sendBuf.buf.Length), opts.sendBufMaxLen, |Encoding(cmdArgs)|)
                && (err.Some? ==> err.value == ErrSendBufTooShort)
      ensures sendBuf.buf.Length >= old(sendBuf.buf.Length)
    {
      ghost var need := |Encoding(cmdArgs)|;
      while true
        invariant Valid() && sendBuf.writePos == 0
        invariant sendBuf.buf == old(sendBuf.buf) || fresh(sendBuf.buf)
        invariant sendBuf.buf.Length >= old(sendBuf.buf.Length)
        invariant GrownLen(old(sendBuf.buf.Length), opts.sendBufMaxLen, need)
               == GrownLen(sendBuf.buf.Length, opts.sendBufMaxLen, need)
        decreases opts.sendBufMaxLen - sendBuf.buf.Length
      {
        err := coder.Encode(sendBuf, cmdArgs);
        if err.Some? {
          if err.value == ErrSendBufTooShort {
            var ok := IncreaseSendBuf();
            if ok {
              continue;
            }
            return;
          }
          return;
        }
        break;
      }
      assert sendBuf.buf[..sendBuf.writePos] == Encoding(cmdArgs);
    }

    /** Why a command was given up with `e` after it was encoded, if its context has not expired. */
    ghost predicate ExchangeFailed(e: Error)
      reads kernel, recvBuf
    {
      e == ErrOperationRetriesFailed || SendStopped(kernel.last, e) || ReceiveFailed(e)
    }

    /** Sends the message and reads the reply, looking at the context before each step. */
    method Exchange(ctx: Context, fuel: nat) returns (r: LoopResult, ghost kept: bytes)
      requires Delivered() && sendBuf.sentBytes == 0 < sendBuf.writePos && recvBuf.writePos == 0
      modifies this`socket, this`base, kernel, msgr`socketFd, sendBuf`sentBytes, recvBuf, recvBuf.buf, ctx
      ensures Valid() && (recvBuf.buf == old(recvBuf.buf) || fresh(recvBuf.buf))
      ensures recvBuf.buf.Length >= old(recvBuf.buf.Length)
      ensures kernel.handed == old(kernel.handed) + kept && Received() == kept
      ensures old(ctx.expired) ==> r == Failed(ErrContext) && kernel.last == old(kernel.last)
      ensures r == Failed(ErrContext) ==> ctx.expired
      ensures ctx.expired ==> r == Failed(ErrContext) || (r.Unfinished? && old(ctx.expired))
      ensures r.Failed? && !ctx.expired ==> ExchangeFailed(r.err)
      ensures !old(Synced()) ==> !r.Finished? && !Synced()
      ensures SyncLost() ==> r.Failed? && IsConnectionError(r.err)
      ensures old(PartSent(0) && ctx.CannotExpire()) ==>
                var len := old(recvBuf.buf.Length);
                && (fuel > |Message()| + old(kernel.patience) + 1 ==> !r.Unfinished?)
                && ctx.CannotExpire() && kernel.patience <= old(kernel.patience)
                && match r
                   case Unfinished => true
                   case Failed(err) => len == opts.receiveBufMaxLen < |old(ReplyBytes())| && GivenUp(err)
                   case Finished => base == old(base) && ReadOut(len)
    {
      kept := [];
      Chunks(kernel.handed, [], []);
      var cancelled := ctx.Err();
      if cancelled {
        return Failed(ErrContext), kept;
      }
      r := Send(ctx, fuel);
      if !r.Finished? {
        return;
      }
      r, kept := ReceiveReply(ctx, fuel);
    }

    /** The receive loop between two looks at the context. */
    method ReceiveReply(ctx: Context, fuel: nat) returns (r: LoopResult, ghost kept: bytes)
      requires Valid() && 0 < sendBuf.writePos && recvBuf.writePos == 0
      modifies this`socket, this`base, kernel, msgr`socketFd, sendBuf`sentBytes, recvBuf, recvBuf.buf, ctx
      ensures Valid() && (recvBuf.buf == old(recvBuf.buf) || fresh(recvBuf.buf))
      ensures recvBuf.buf.Length >= old(recvBuf.buf.Length)
      ensures kernel.handed == old(kernel.handed) + kept && Received() == kept
      ensures old(ctx.expired) ==> r == Failed(ErrContext) && kernel.last == old(kernel.last)
      ensures r == Failed(ErrContext) ==> ctx.expired
      ensures ctx.expired ==> r == Failed(ErrContext) || (r.Unfinished? && old(ctx.expired))
      ensures r.Failed? && !ctx.expired ==> ExchangeFailed(r.err)
      ensures !old(Synced()) ==> !r.Finished? && !Synced()
      ensures SyncLost() ==> r.Failed? && IsConnectionError(r.err)
      ensures old(AwaitsReply() && ctx.CannotExpire()) ==>
                var len := old(recvBuf.buf.Length);
                && (fuel > old(kernel.patience) + 1 ==> !r.Unfinished?)
                && ctx.CannotExpire() && kernel.patience <= old(kernel.patience)
                && match r
                   case Unfinished => true
                   case Failed(err) => len == opts.receiveBufMaxLen < |old(ReplyBytes())| && GivenUp(err)
                   case Finished => base == old(base) && ReadOut(len)
    {
      kept := [];
      Chunks(kernel.handed, [], []);
      assert Received() == [];
      var cancelled := ctx.Err();
      if cancelled {
        return Failed(ErrContext), kept;
      }
      r, kept := Receive(ctx, fuel);
      assert [] + kept == kept;
      if !r.Finished? {
        return;
      }
      cancelled := ctx.Err();
      if cancelled {
        return Failed(ErrContext), kept;
      }
    }

    /** Between two commands in lock-step: everything sent is answered, and every answer read. */
    ghost predicate Ready()
      reads this, kernel, msgr, sendBuf, recvBuf, coder
    {
      && Valid() && Synced() && InStep(Sock(Current().accepted, |Current().accepted|, []))
      && Clean() && coder.decodingErr == None
    }

    /** What a command is answered with in lock-step once the socket has accepted `sent` in all,
        if the buffer had length `len` before: the decoded reply if it fits after one step of
        growth, and then nothing is left in the kernel; else the decoded beginning of it while
        the rest stays there; or ErrRecvBufTooShort if the buffer could not grow. */
    ghost predicate Answers(r: Parsing.Result, sent: bytes, len: nat)
      reads this, kernel, msgr, sendBuf, recvBuf
    {
      var reply, max := kernel.reply(sent), opts.receiveBufMaxLen;
      var cap := NextLen(len, max);
      if |reply| <= len then
        r == Parsing.Decode(reply, stack) && recvBuf.buf.Length == len && InStep(Sock(sent, |sent|, []))
      else if len == max then
        r.Err? && GivenUp(r.error)
      else if |reply| <= cap then
        r == Parsing.Decode(reply, stack) && recvBuf.buf.Length == cap && InStep(Sock(sent, |sent|, []))
      else
        && 0 <= cap && r == Parsing.Decode(reply[..cap], stack)
        && recvBuf.buf.Length == cap && InStep(Sock(sent, |sent|, reply[cap..]))
    }

    /** The result of a command that was not refused: the context has expired, the command cannot be
        encoded, it was given up for a reason that the kernel's answers give, or it was decoded from
        exactly the bytes that the kernel handed out during the command. */
    ghost predicate Explained(r: Answer, cmdArgs: seq<Arg>, expired: bool,
                              before: bytes, after: bytes, sticky: Option<Error>)
      reads kernel, sendBuf, recvBuf
    {
      r.Returned? ==>
        if expired then r.result == Parsing.Err(ErrContext)
        else if !Encodes(opts, cmdArgs) then r.result.Err? && CannotEncode(cmdArgs, r.result.error)
        else DecodedFrom(r.result, before, after, sticky)
    }

    ghost predicate DecodedFrom(r: Parsing.Result, before: bytes, after: bytes, sticky: Option<Error>)
      reads kernel, recvBuf
    {
      || (before <= after && r == Parsing.DecodeAfter(sticky, after[|before|..], stack).0)
      || (r.Err? && ExchangeFailed(r.error))
    }

    /** Sends an encoded command and decodes what comes back. */
    method Deliver(ctx: Context, fuel: nat) returns (r: Answer)
      requires Delivered() && sendBuf.sentBytes == 0 < sendBuf.writePos && recvBuf.writePos == 0
      modifies this`socket, this`base, kernel, coder`decodingData, coder`decodingErr, coder`entries
      modifies msgr`socketFd, sendBuf`sentBytes, recvBuf, recvBuf.buf, ctx
      ensures Valid() && (recvBuf.buf == old(recvBuf.buf) || fresh(recvBuf.buf))
      ensures recvBuf.buf.Length >= old(recvBuf.buf.Length)
      ensures r.Returned? ==>
                if ctx.expired then r.result == Parsing.Err(ErrContext)
                else DecodedFrom(r.result, old(kernel.handed), kernel.handed, old(coder.decodingErr))
      ensures !old(Synced()) ==> !Synced() && (r.Pending? || r.result.Err?)
      ensures SyncLost() ==> r.Returned? && r.result.Err? && IsConnectionError(r.result.error)
      ensures old(PartSent(0) && ctx.CannotExpire()) && old(coder.decodingErr) == None ==>
                && (fuel > |Message()| + old(kernel.patience) + 1 ==> r.Returned?)
                && ctx.CannotExpire() && kernel.patience <= old(kernel.patience)
                && (r.Returned? ==> Answers(r.result, old(base + Message()), old(recvBuf.buf.Length))
                                    && (!r.result.Crash? ==> coder.decodingErr == None))
    {
      var p;
      ghost var kept;
      p, kept := Exchange(ctx, fuel);
      match p {
        case Unfinished => return Pending;
        case Failed(err) => return Returned(Parsing.Err(err));
        case Finished =>
      }
      assert kernel.handed[|old(kernel.handed)|..] == kept;
      var result := DecodeReceived();
      if old(PartSent(0) && ctx.CannotExpire() && coder.decodingErr == None) {
        ReadOutAnswers(result, old(recvBuf.buf.Length));
      }
      return Returned(result);
    }

    method DecodeReceived() returns (result: Parsing.Result)
      requires Valid()
      modifies coder`decodingData, coder`decodingErr, coder`entries
      ensures result == Parsing.DecodeAfter(old(coder.decodingErr), Received(), stack).0
      ensures !result.Crash? ==> coder.decodingErr == None
    {
      result := coder.Decode(recvBuf.buf[..recvBuf.writePos], stack);
    }

    lemma ReadOutAnswers(r: Parsing.Result, len: nat)
      requires Valid() && ReadOut(len) && r == Parsing.Decode(Received(), stack)
      requires opts.receiveBufMinLen <= len <= opts.receiveBufMaxLen
      ensures Answers(r, base + Message(), len)
    {
      assert ReplyBytes()[..|ReplyBytes()|] == ReplyBytes() && ReplyBytes()[|ReplyBytes()|..] == [];
    }

    ghost predicate Untouched(socks: map<int, Sock>, patience: nat)
      reads kernel
    {
      kernel.socks == socks && kernel.patience == patience
    }

    /** The send buffer, whose length was `len`, has grown as far as the command made it: to the
        first element of the chain that is large enough. */
    ghost predicate SendBufGrew(len: int, cmdArgs: seq<Arg>)
      reads sendBuf
    {
      && 0 < len <= sendBuf.buf.Length && len <= opts.sendBufMaxLen
      && (AllSupported(cmdArgs) ==> sendBuf.buf.Length == GrownLen(len, opts.sendBufMaxLen, |Encoding(cmdArgs)|))
    }

    /** The work of a command between taking and releasing the connection. */
    method Work(ctx: Context, cmdArgs: seq<Arg>, fuel: nat) returns (r: Answer)
      requires Valid() && Clean() && cmdArgs != []
      modifies this`socket, this`base, kernel, coder, msgr`socketFd, sendBuf, sendBuf.buf, recvBuf, recvBuf.buf, ctx
      ensures Valid()
      ensures sendBuf.buf == old(sendBuf.buf) || fresh(sendBuf.buf)
      ensures recvBuf.buf == old(recvBuf.buf) || fresh(recvBuf.buf)
      ensures recvBuf.buf.Length >= old(recvBuf.buf.Length)
      ensures !old(ctx.expired) ==>
                Explained(r, cmdArgs, ctx.expired, old(kernel.handed), kernel.handed, old(coder.decodingErr))
      ensures !old(Synced()) ==> !Synced() && (r.Pending? || r.result.Err?)
      ensures SyncLost() ==> r.Returned? && r.result.Err? && IsConnectionError(r.result.error)
      ensures !Encodes(opts, cmdArgs) ==>
                && r.Returned? && r.result.Err? && IsEncodingError(r.result.error)
                && Untouched(old(kernel.socks), old(kernel.patience))
                && socket == old(socket) && msgr.socketFd == old(msgr.socketFd)
                && recvBuf.buf == old(recvBuf.buf) && coder.decodingErr == old(coder.decodingErr)
                && ctx.expired == old(ctx.expired)
      ensures SendBufGrew(old(sendBuf.buf.Length), cmdArgs)
      ensures old(Ready() && ctx.CannotExpire()) && Encodes(opts, cmdArgs) && InMemory(Payloads(cmdArgs)) ==>
                && (fuel > |Encoding(cmdArgs)| + old(kernel.patience) + 1 ==> r.Returned?)
                && ctx.CannotExpire() && kernel.patience <= old(kernel.patience)
                && (r.Returned? ==>
                      && Answers(r.result, old(Current().accepted) + Encoding(cmdArgs), old(recvBuf.buf.Length))
                      && (!r.result.Crash? ==> coder.decodingErr == None))
    {
      var err := EncodeGrowing(cmdArgs);
      if err.Some? {
        return Returned(Parsing.Err(err.value));
      }
      MarkBase();
      if InMemory(Payloads(cmdArgs)) {
        assert OneCommand(Message());
      }
      r := Deliver(ctx, fuel);
    }

    /** Nothing of the command in the buffer was sent yet. */
    method MarkBase()
      requires Valid() && sendBuf.sentBytes == 0
      modifies this`base
      ensures Delivered() && base == if Synced() then Current().accepted else []
      ensures PartSent(0) <==>
                && kernel.lockStep && Synced() && OneCommand(Message())
                && Current() == Sock(Current().accepted, |Current().accepted|, [])
    {
      base := if Synced() then Current().accepted else [];
      assert sendBuf.buf[..0] == [] && Message()[..0] == [] && base + [] == base;
    }

    /** One command. While another one is in progress it is refused. Otherwise the buffers are
        cleared and the connection is released on every way out, a panic included; after an early
        cancellation there is nothing to clear. */
    method Process(ctx: Context, cmdArgs: seq<Arg>, fuel: nat) returns (r: Answer)
      requires Valid() && (!processing ==> Clean()) && cmdArgs != []
      modifies this`socket, this`base, this`processing, kernel, coder, msgr`socketFd
      modifies sendBuf, sendBuf.buf, recvBuf, recvBuf.buf, ctx
      ensures Valid() && (!processing ==> Clean())
      ensures sendBuf.buf == old(sendBuf.buf) || fresh(sendBuf.buf)
      ensures recvBuf.buf == old(recvBuf.buf) || fresh(recvBuf.buf)
      ensures recvBuf.buf.Length >= old(recvBuf.buf.Length)
      ensures old(processing) ==>
                && r == Returned(Parsing.Err(ErrConnectionCmdInProcess)) && processing
                && Untouched(old(kernel.socks), old(kernel.patience))
                && Message() == old(Message()) && Received() == old(Received())
      ensures !old(processing) && old(ctx.expired) ==>
                r == Returned(Parsing.Err(ErrContext)) && Untouched(old(kernel.socks), old(kernel.patience))
      ensures !old(processing) ==> (processing <==> r.Pending?)
      ensures !old(processing) ==>
                Explained(r, cmdArgs, ctx.expired, old(kernel.handed), kernel.handed, old(coder.decodingErr))
      ensures !old(Synced()) ==> !Synced() && (r.Pending? || r.result.Err?)
      ensures SyncLost() ==> r.Returned? && r.result.Err? && IsConnectionError(r.result.error)
      ensures old(Ready() && ctx.CannotExpire()) && !old(processing) && !Encodes(opts, cmdArgs) ==>
                r.Returned? && r.result.Err? && IsEncodingError(r.result.error) && Ready() && ctx.CannotExpire()
                && Untouched(old(kernel.socks), old(kernel.patience)) && recvBuf.buf.Length == old(recvBuf.buf.Length)
      ensures old(Ready() && ctx.CannotExpire() && !processing)
              && Encodes(opts, cmdArgs) && InMemory(Payloads(cmdArgs)) ==>
                && (fuel > |Encoding(cmdArgs)| + old(kernel.patience) + 1 ==> r.Returned?)
                && ctx.CannotExpire() && kernel.patience <= old(kernel.patience)
                && (r.Returned? ==>
                      Answers(r.result, old(Current().accepted) + Encoding(cmdArgs), old(recvBuf.buf.Length))
                      && (!r.result.Crash? ==> coder.decodingErr == None))
      ensures sendBuf.buf.Length >= old(sendBuf.buf.Length)
      ensures old(Ready() && ctx.CannotExpire() && !processing) ==> SendBufGrew(old(sendBuf.buf.Length), cmdArgs)
    {
      if IsProcessing() {
        return Returned(Parsing.Err(ErrConnectionCmdInProcess));
      }
      StartProcessing();
      var cancelled := ctx.Err();
      if cancelled {
        StopProcessing();
        return Returned(Parsing.Err(ErrContext));
      }
      r := Work(ctx, cmdArgs, fuel);
      if r.Pending? {
        return;
      }
      Leave();
    }

    /** The deferred calls, the last one first. */
    method Leave()
      requires Valid()
      modifies sendBuf`writePos, sendBuf`sentBytes, recvBuf`writePos, this`processing
      ensures Valid() && Clean() && !processing
    {
      ClearBufs();
      StopProcessing();
    }

    /** Process in lock-step, for a reply that is not cut: it fits after one step of growth, or
        the buffer has its largest length. In that last case the reply is given up, and the
        connection is ready on a new socket unless the reconnect fails. */
    method ProcessInStep(ctx: Context, cmdArgs: seq<Arg>, fuel: nat, ghost h: bytes) returns (r: Parsing.Result)
      requires Ready() && !processing && ctx.CannotExpire() && Current().accepted == h
      requires cmdArgs != [] && InMemory(Payloads(cmdArgs))
      requires Encodes(opts, cmdArgs) ==>
                 && fuel > |Encoding(cmdArgs)| + kernel.patience + 1
                 && (FitsIn(recvBuf.buf.Length, h, cmdArgs) || recvBuf.buf.Length == opts.receiveBufMaxLen)
      modifies this`socket, this`base, this`processing, kernel, coder, msgr`socketFd
      modifies sendBuf, sendBuf.buf, recvBuf, recvBuf.buf, ctx
      ensures sendBuf.buf == old(sendBuf.buf) || fresh(sendBuf.buf)
      ensures recvBuf.buf == old(recvBuf.buf) || fresh(recvBuf.buf)
      ensures SendBufGrew(old(sendBuf.buf.Length), cmdArgs)
      ensures ctx.CannotExpire() && kernel.patience <= old(kernel.patience)
      ensures !Encodes(opts, cmdArgs) ==> r.Err? && IsEncodingError(r.error) && IsReady(h, old(recvBuf.buf.Length))
      ensures Encodes(opts, cmdArgs) && FitsIn(old(recvBuf.buf.Length), h, cmdArgs) ==>
                var reply := kernel.reply(h + Encoding(cmdArgs));
                && r == Parsing.Decode(reply, stack)
                && (!r.Crash? ==> IsReady(h + Encoding(cmdArgs),
                                          LenWith(|reply|, old(recvBuf.buf.Length), opts.receiveBufMaxLen)))
      ensures Encodes(opts, cmdArgs) && !FitsIn(old(recvBuf.buf.Length), h, cmdArgs) ==>
                && r.Err? && TooLong(kernel.last, r.error)
                && if r.error == ErrRecvBufTooShort then IsReady([], old(recvBuf.buf.Length))
                   else IsConnectionError(r.error)
    {
      var a := Process(ctx, cmdArgs, fuel);
      r := if a.Returned? then a.result else Parsing.Err(ErrOther(0));
    }

    /** The reply to a command, sent when the socket had accepted `h`, fits into a buffer of length
        `len` after at most one step of growth. */
    ghost predicate FitsIn(len: int, h: bytes, cmdArgs: seq<Arg>) {
      Fits(|kernel.reply(h + Encoding(cmdArgs))|, len, opts.receiveBufMaxLen)
    }

    /** Ready and free, with `h` accepted by the socket and a receive buffer of length `len`. */
    ghost predicate IsReady(h: bytes, len: int)
      reads this, kernel, msgr, sendBuf, recvBuf, coder
    {
      Ready() && !processing && Current().accepted == h && recvBuf.buf.Length == len
    }

    method ClearBufs()
      requires Valid()
      modifies sendBuf`writePos, sendBuf`sentBytes, recvBuf`writePos
      ensures Valid() && Clean()
    {
      sendBuf.writePos := 0;
      sendBuf.sentBytes := 0;
      recvBuf.writePos := 0;
    }

    predicate IsProcessing()
      reads this
    {
      processing
    }

    method StartProcessing()
      modifies this`processing
      ensures processing
    {
      processing := true;
    }

    method StopProcessing()
      modifies this`processing
      ensures !processing
    {
      processing := false;
    }
  }

  /** A connection to a server, or the error that kept it from being made. */
  method NewConnector(opts: Limits, kernel: Kernel, stack: nat) returns (c: Connection?, err: Option<Error>)
    requires opts.Usable() && kernel.socks == map[]
    modifies kernel
    ensures c == null <==> err.Some?
    ensures err.None? ==> kernel.last.open.None? && kernel.last.poller.None? && ConnectGave(kernel.last, None)
    ensures err.Some? ==>
              if kernel.last.open.Some? then err == kernel.last.open
              else if kernel.last.poller.Some? then err == kernel.last.poller
              else ConnectGave(kernel.last, err)
    ensures kernel.patience == old(kernel.patience)
    ensures c != null ==>
              && c.opts == opts && c.kernel == kernel && c.stack == stack
              && c.Valid() && c.Synced() && c.Clean() && !c.processing
              && c.sendBuf.buf.Length == opts.sendBufMinLen && c.recvBuf.buf.Length == opts.receiveBufMinLen
              && c.Current().accepted == [] && (kernel.lockStep ==> c.Ready())
    ensures c != null ==> fresh(c) && fresh(c.coder) && fresh(c.msgr) && fresh(c.sendBuf) && fresh(c.recvBuf)
                          && fresh(c.sendBuf.buf) && fresh(c.recvBuf.buf)
  {
    var fd;
    fd, err := kernel.NewSocket();
    if err.Some? {
      return null, err;
    }
    err := kernel.NewPoller();
    if err.Some? {
      return null, err;
    }
    var conn := new Connection(opts, kernel, stack, fd);
    assert kernel.lockStep ==> !kernel.Answerable(Sock([], 0, []));
    err := conn.Connect();
    if err.Some? {
      return null, err;
    }
    return conn, None;
  }
}
