/** Sending and receiving on one socket, with the byte accounting of the driver. */
module Messenger {
  import opened Bytes
  import opened Resp
  import opened Coder
  import opened Environment

  /** What a read into a buffer of length `len` ends with: the error of the call if it failed; an
      error for either flag; the end of the stream if there were no bytes; and truncation if the
      read filled the whole buffer and left something behind. */
  ghost function ReadError(a: Answers, len: nat): (err: Option<Error>)
    ensures a.recv.err.Some? ==> err == a.recv.err
    ensures a.recv.err.None? && a.recv.trunc ==> err == Some(ErrRecvMsgTrunc)
    ensures a.recv.err.None? && !a.recv.trunc && a.recv.ctrunc ==> err == Some(ErrRecvMsgCTrunc)
    ensures a.recv.err.None? && !a.recv.trunc && !a.recv.ctrunc && a.recv.n == 0 ==> err == Some(ErrConnectionClosed)
    ensures a.recv.err.None? && !a.recv.trunc && !a.recv.ctrunc && a.recv.n > 0 ==>
              err == if a.recv.n == len && a.left > 0 then Some(ErrRecvMsgTrunc) else None
  {
    if a.recv.err.Some? then a.recv.err
    else if a.recv.trunc then Some(ErrRecvMsgTrunc)
    else if a.recv.ctrunc then Some(ErrRecvMsgCTrunc)
    else if a.recv.n == 0 then Some(ErrConnectionClosed)
    else if a.recv.n == len && a.left > 0 then Some(ErrRecvMsgTrunc)
    else None
  }

  class Transmitter {
    const kernel: Kernel
    var socketFd: int

    constructor (kernel: Kernel, socketFd: int)
      ensures this.kernel == kernel && this.socketFd == socketFd
    {
      this.kernel := kernel;
      this.socketFd := socketFd;
    }

    /** A success means that the kernel took all of the data; a short send is an error. */
    method Send(data: bytes) returns (n: nat, err: Option<Error>)
      modifies kernel`socks, kernel`last, kernel`patience
      ensures kernel.last == old(kernel.last).(send := kernel.last.send)
      ensures kernel.last.send.Some? ==> err == kernel.last.send && n == 0 && SystemError(err.value)
      ensures kernel.last.send.None? ==> err == if n < |data| then Some(ErrSendMsgTrunc) else None
      ensures n <= |data|
      ensures err == None ==> n == |data|
      ensures err.Some? ==> n < |data| || data == []
      ensures err.Some? && err.value != ErrSendMsgTrunc ==> n == 0 && SystemError(err.value)
      ensures socketFd !in old(kernel.socks) ==> err == Some(ErrSocketBadFD) && kernel.socks == old(kernel.socks)
      ensures socketFd in old(kernel.socks) ==>
                var s := old(kernel.socks[socketFd]);
                kernel.Became(socketFd, s.(accepted := s.accepted + data[..n]))
      ensures kernel.lockStep && socketFd in old(kernel.socks) && data != [] ==>
                if n == 0 then err == Some(ErrWouldBlock) && kernel.patience < old(kernel.patience)
                else (err == None || err == Some(ErrSendMsgTrunc)) && kernel.patience == old(kernel.patience)
    {
      n, err := kernel.Send(socketFd, data);
      if err.Some? {
        return;
      }
      if n != |data| {
        return n, Some(ErrSendMsgTrunc);
      }
      return n, None;
    }

    /** Reads behind the write position. `kept` is what the buffer gained; a chunk that comes
        back with a truncation flag is not kept. A buffer that is full already gains nothing, which
        looks as if the server had closed the connection. `at` is the socket at the moment of the read. */
    method Receive(b: RecvBuf) returns (err: Option<Error>, ghost kept: bytes, ghost at: Sock)
      requires b.writePos <= b.buf.Length
      modifies kernel`socks, kernel`last, kernel`patience, kernel`handed, b`writePos, b.buf
      ensures kernel.last == old(kernel.last).(recv := kernel.last.recv, left := kernel.last.left)
      ensures err == ReadError(kernel.last, b.buf.Length)
      ensures kernel.handed == old(kernel.handed) + kept
      ensures b.writePos == old(b.writePos) + |kept| <= b.buf.Length
      ensures b.buf[..b.writePos] == old(b.buf[..b.writePos]) + kept
      ensures err.None? ==> kept != []
      ensures err.Some? && err.value != ErrRecvMsgTrunc ==>
                kept == [] && (SystemError(err.value) || err.value == ErrRecvMsgCTrunc)
      ensures socketFd !in old(kernel.socks) ==> err == Some(ErrSocketBadFD) && kernel.socks == old(kernel.socks)
      ensures socketFd in old(kernel.socks) ==>
                && kernel.socks.Keys == old(kernel.socks.Keys)
                && kernel.socks[socketFd].accepted == old(kernel.socks[socketFd].accepted)
      ensures old(b.writePos) == b.buf.Length ==> err.Some? && kept == []
      ensures kernel.lockStep && socketFd in old(kernel.socks) && old(b.writePos) < b.buf.Length ==>
                LockStepRead(old(kernel.socks[socketFd]), at, kept, old(b.buf.Length - b.writePos), err)
                && kernel.Became(socketFd, at.(queue := at.queue[|kept|..]))
                && kernel.patience <= old(kernel.patience)
                && (err == Some(ErrWouldBlock) ==> kernel.patience < old(kernel.patience) || !kernel.Answerable(at))
                && (err == Some(ErrRecvMsgTrunc) <==> err != Some(ErrWouldBlock)
                                                       && |kept| == b.buf.Length && kernel.socks[socketFd].queue != [])
    {
      var n, trunc, ctrunc;
      n, trunc, ctrunc, err, kept, at := Recvmsg(b);
      if err.Some? {
        return;
      }
      if trunc {
        err := Some(ErrRecvMsgTrunc);
        return;
      }
      if ctrunc {
        err := Some(ErrRecvMsgCTrunc);
        return;
      }
      if n == 0 {
        err := Some(ErrConnectionClosed);
        return;
      }
      b.writePos := b.writePos + n;
      if n == b.buf.Length {
        err := LookForMore();
      }
    }

    /** A read that filled the whole buffer may have left something behind. */
    method LookForMore() returns (err: Option<Error>)
      requires socketFd in kernel.socks
      modifies kernel`socks, kernel`last
      ensures kernel.Became(socketFd, old(kernel.socks[socketFd]))
      ensures kernel.last == old(kernel.last).(left := kernel.last.left)
      ensures err == if kernel.last.left > 0 then Some(ErrRecvMsgTrunc) else None
      ensures kernel.lockStep ==> (err.Some? <==> kernel.socks[socketFd].queue != [])
    {
      var bytesLeft := kernel.BytesLeft(socketFd);
      return if bytesLeft > 0 then Some(ErrRecvMsgTrunc) else None;
    }

    /** The system call: `n` bytes land in the buffer behind the write position. */
    method Recvmsg(b: RecvBuf)
      returns (n: nat, trunc: bool, ctrunc: bool, err: Option<Error>, ghost kept: bytes, ghost at: Sock)
      requires b.writePos <= b.buf.Length
      modifies kernel`socks, kernel`last, kernel`patience, kernel`handed, b.buf
      ensures kernel.patience <= old(kernel.patience)
      ensures kernel.last == old(kernel.last).(recv := ReadAnswer(n, trunc, ctrunc, err))
      ensures kernel.handed == old(kernel.handed) + kept
      ensures b.writePos + n <= b.buf.Length
      ensures |kept| == if trunc || ctrunc then 0 else n
      ensures b.buf[..b.writePos + |kept|] == old(b.buf[..b.writePos]) + kept
      ensures err.Some? ==> n == 0 && !trunc && !ctrunc && SystemError(err.value)
      ensures socketFd !in old(kernel.socks) ==> err == Some(ErrSocketBadFD) && kernel.socks == old(kernel.socks)
      ensures socketFd in old(kernel.socks) ==>
                && n <= |at.queue| && kernel.MayBecome(old(kernel.socks[socketFd]), at)
                && kernel.socks == old(kernel.socks)[socketFd := at.(queue := at.queue[n..])]
      ensures kernel.lockStep && socketFd in old(kernel.socks) && b.writePos < b.buf.Length ==>
                && !trunc && !ctrunc
                && LockStepRead(old(kernel.socks[socketFd]), at, kept, b.buf.Length - b.writePos, err)
                && (err.Some? ==> kernel.patience < old(kernel.patience) || !kernel.Answerable(at))
    {
      var chunk;
      chunk, trunc, ctrunc, err, at := kernel.Recv(socketFd, b.buf.Length - b.writePos);
      n := |chunk|;
      Store(b, chunk);
      kept := if trunc || ctrunc then [] else chunk;
      assert b.buf[..b.writePos] == (b.buf[..b.writePos + n])[..b.writePos] == old(b.buf[..b.writePos]);
      assert old(b.buf[..b.writePos]) + [] == old(b.buf[..b.writePos]);
    }

    method Store(b: RecvBuf, chunk: bytes)
      requires b.writePos + |chunk| <= b.buf.Length
      modifies b.buf
      ensures b.buf[..b.writePos + |chunk|] == old(b.buf[..b.writePos]) + chunk
    {
      for i := 0 to |chunk|
        invariant b.buf[..b.writePos + i] == old(b.buf[..b.writePos]) + chunk[..i]
      {
        b.buf[b.writePos + i] := chunk[i];
      }
    }

    /** A read in lock-step: nothing was there, or as much was taken as there was room for. */
    ghost predicate LockStepRead(before: Sock, at: Sock, kept: bytes, room: int, err: Option<Error>)
    {
      && kernel.MayBecome(before, at)
      && (err == None || err == Some(ErrWouldBlock) || err == Some(ErrRecvMsgTrunc))
      && if err == Some(ErrWouldBlock) then at == before && at.queue == [] && kept == []
         else |at.queue| > 0 && kept <= at.queue && |kept| == if room < |at.queue| then room else |at.queue|
    }

    method ChangeSocketFd(newSocketFd: int)
      modifies this`socketFd
      ensures socketFd == newSocketFd
    {
      socketFd := newSocketFd;
    }
  }
}
