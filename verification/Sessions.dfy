/** Whole runs: any number of commands, one after the other, on one connection in lock-step. */
module Sessions {
  import opened Bytes
  import opened Resp
  import Parsing
  import RoundTrip
  import CutReplies
  import opened CommandDomain
  import opened Coder
  import opened ConnectionOptions
  import opened Environment
  import opened Growth
  import opened SingleConnection

  /** Where a run has got to: what the socket has accepted, and the length of the receive buffer. */
  datatype Position = Position(sent: bytes, len: int)

  /** What the answers of a run depend on, besides its commands: the options, the server, and the
      size of the stack. */
  datatype Setup = Setup(opts: Limits, reply: bytes -> Reply, stack: nat) {

    /** The server's reply to a command that is sent at `p`. */
    ghost function ReplyTo(p: Position, cmd: seq<Arg>): bytes {
      reply(p.sent + Encoding(cmd))
    }

    /** That reply fits into the buffer after at most one step of growth. */
    ghost predicate ReplyFits(p: Position, cmd: seq<Arg>) {
      Fits(|ReplyTo(p, cmd)|, p.len, opts.receiveBufMaxLen)
    }

    /** No reply is cut off: one that does not fit comes when the buffer cannot grow. */
    ghost predicate NothingIsCut(p: Position, cmd: seq<Arg>) {
      Encodes(opts, cmd) ==> ReplyFits(p, cmd) || p.len == opts.receiveBufMaxLen
    }

    /** A command that cannot be encoded changes nothing. A reply that fits leaves the buffer as
        long as it needed. One that is given up leads to a new socket. */
    ghost function After(p: Position, cmd: seq<Arg>): Position {
      if !Encodes(opts, cmd) then p
      else if ReplyFits(p, cmd) then
        Position(p.sent + Encoding(cmd), LenWith(|ReplyTo(p, cmd)|, p.len, opts.receiveBufMaxLen))
      else Position([], p.len)
    }

    ghost function AfterAll(p: Position, cmds: seq<seq<Arg>>, k: nat): Position
      requires k <= |cmds|
    {
      if k == 0 then p else After(AfterAll(p, cmds, k - 1), cmds[k - 1])
    }

    /** `r` is the right answer at `p`: the decoding of the command's own reply; an error if the
        command cannot be encoded; and for a reply that is given up, ErrRecvBufTooShort or the
        error of the reconnect. */
    ghost predicate RightAnswer(p: Position, cmd: seq<Arg>, r: Parsing.Result) {
      if !Encodes(opts, cmd) then r.Err? && IsEncodingError(r.error)
      else if ReplyFits(p, cmd) then r == Parsing.Decode(ReplyTo(p, cmd), stack)
      else r.Err? && (r.error == ErrRecvBufTooShort || IsConnectionError(r.error))
    }

    /** After this answer the connection cannot be used: the decoder panicked, or a reconnect
        failed. */
    ghost predicate IsTheEnd(p: Position, cmd: seq<Arg>, r: Parsing.Result) {
      && Encodes(opts, cmd)
      && if ReplyFits(p, cmd) then r.Crash? else r != Parsing.Err(ErrRecvBufTooShort)
    }

    /** The first answers of a run are the right ones, and only the last can be the end. */
    ghost predicate RightAnswers(p: Position, cmds: seq<seq<Arg>>, answers: seq<Parsing.Result>, ended: bool) {
      && |answers| <= |cmds|
      && (forall i :: 0 <= i < |answers| ==> RightAt(p, cmds, i, answers[i], ended && i == |answers| - 1))
      && (ended ==> answers != [])
    }

    ghost predicate RightAt(p: Position, cmds: seq<seq<Arg>>, i: nat, r: Parsing.Result, end: bool)
      requires i < |cmds|
    {
      var q := AfterAll(p, cmds, i);
      RightAnswer(q, cmds[i], r) && (IsTheEnd(q, cmds[i], r) <==> end)
    }

    /** The lengths of the send buffer during a run: it never shrinks, and grows to the first
        element of the chain that is large enough. */
    ghost predicate SendBufLens(lens: seq<int>, cmds: seq<seq<Arg>>, n: nat)
      requires n <= |cmds|
    {
      && |lens| == n + 1
      && forall i :: 0 <= i < n ==>
           && 0 < lens[i] <= lens[i + 1] && lens[i] <= opts.sendBufMaxLen
           && (AllSupported(cmds[i]) ==> lens[i + 1] == GrownLen(lens[i], opts.sendBufMaxLen, |Encoding(cmds[i])|))
    }
  }

  /** If the server answers a command with a printed reply tree that fits, the right answer is the
      value of that tree, or ErrNoValue if it holds a null. */
  lemma RightAnswerIsTheReply(s: Setup, p: Position, cmd: seq<Arg>, r: Parsing.Result, t: Tree)
    requires Encodes(s.opts, cmd) && s.ReplyFits(p, cmd) && s.RightAnswer(p, cmd, r)
    requires WellFormed(t) && Depth(t) <= s.stack && s.ReplyTo(p, cmd) == Print(t)
    ensures r == if HasNull(t) then Parsing.Err(ErrNoValue) else Parsing.Ok(ValueOf(t))
  {
    RoundTrip.DecodeReply(t, [], s.stack);
    assert Print(t) + [] == Print(t);
  }

  /** If the reply is such a tree but is cut off, the answer to the command is whatever the part that
      was read looks like. */
  lemma CutReplyIsMisread(c: Connection, r: Parsing.Result, sent: bytes, len: nat, t: Tree)
    requires c.Answers(r, sent, len) && c.kernel.reply(sent) == Print(t) && len < c.opts.receiveBufMaxLen
    requires !Fits(|Print(t)|, len, c.opts.receiveBufMaxLen)
    requires WellFormed(t) && Depth(t) <= c.stack
    ensures var k := NextLen(len, c.opts.receiveBufMaxLen);
      && 0 <= k < |Print(t)|
      && r == if CutReplies.Panics(t, k) then Parsing.Crash(Parsing.IndexOutOfRange)
              else if CutReplies.CutHasNull(t, k) then Parsing.Err(ErrNoValue)
              else Parsing.Ok(CutReplies.CutValue(t, k))
  {
    CutReplies.DecodeCutReply(t, NextLen(len, c.opts.receiveBufMaxLen), c.stack);
  }

  lemma OneMoreAnswer(s: Setup, p: Position, cmds: seq<seq<Arg>>, answers: seq<Parsing.Result>, r: Parsing.Result,
                      ended: bool)
    requires s.RightAnswers(p, cmds, answers, false) && |answers| < |cmds|
    requires s.RightAt(p, cmds, |answers|, r, ended)
    ensures s.RightAnswers(p, cmds, answers + [r], ended)
  {
    var all := answers + [r];
    forall i | 0 <= i < |all|
      ensures s.RightAt(p, cmds, i, all[i], ended && i == |all| - 1)
    {
      if i < |answers| {
        assert all[i] == answers[i] && s.RightAt(p, cmds, i, answers[i], false);
      }
    }
  }

  lemma OneMoreLen(s: Setup, lens: seq<int>, cmds: seq<seq<Arg>>, n: nat, len: int)
    requires n < |cmds| && s.SendBufLens(lens, cmds, n)
    requires 0 < lens[n] <= len && lens[n] <= s.opts.sendBufMaxLen
    requires AllSupported(cmds[n]) ==> len == GrownLen(lens[n], s.opts.sendBufMaxLen, |Encoding(cmds[n])|)
    ensures s.SendBufLens(lens + [len], cmds, n + 1)
  {
  }

  function SetupOf(c: Connection): Setup {
    Setup(c.opts, c.kernel.reply, c.stack)
  }

  ghost function PositionOf(c: Connection): Position
    requires c.Valid() && c.Synced()
    reads c, c.kernel, c.msgr, c.sendBuf, c.recvBuf
  {
    Position(c.Current().accepted, c.recvBuf.buf.Length)
  }

  /** One command of a run. */
  method RunNext(c: Connection, ctx: Context, cmd: seq<Arg>, fuel: nat, ghost p: Position)
    returns (r: Parsing.Result, ended: bool)
    requires c.IsReady(p.sent, p.len) && ctx.CannotExpire() && cmd != [] && InMemory(Payloads(cmd))
    requires SetupOf(c).NothingIsCut(p, cmd)
    requires Encodes(c.opts, cmd) ==> fuel > |Encoding(cmd)| + c.kernel.patience + 1
    modifies c`socket, c`base, c`processing, c.kernel, c.coder, c.msgr`socketFd
    modifies c.sendBuf, c.sendBuf.buf, c.recvBuf, c.recvBuf.buf, ctx
    ensures c.sendBuf.buf == old(c.sendBuf.buf) || fresh(c.sendBuf.buf)
    ensures c.recvBuf.buf == old(c.recvBuf.buf) || fresh(c.recvBuf.buf)
    ensures c.SendBufGrew(old(c.sendBuf.buf.Length), cmd)
    ensures ctx.CannotExpire() && c.kernel.patience <= old(c.kernel.patience)
    ensures SetupOf(c).RightAnswer(p, cmd, r) && (SetupOf(c).IsTheEnd(p, cmd, r) <==> ended)
    ensures Encodes(c.opts, cmd) && !SetupOf(c).ReplyFits(p, cmd) ==> TooLong(c.kernel.last, r.error)
    ensures !ended ==> c.IsReady(SetupOf(c).After(p, cmd).sent, SetupOf(c).After(p, cmd).len)
  {
    r := c.ProcessInStep(ctx, cmd, fuel, p.sent);
    Parsing.DecodeErrors(SetupOf(c).ReplyTo(p, cmd), c.stack);
    ended := r.Crash? || (r.Err? && IsConnectionError(r.error));
  }

  /** Commands one after the other. As long as no reply is cut off, every command that can be
      encoded is answered with the decoding of its own reply, or an error if that reply is longer
      than the largest buffer; between commands nothing is left to be read; and the buffers
      have grown as far as commands and replies made them. A run ends early only at a reply that
      makes the decoder panic, and at a reconnect that fails. */
  method RunCommands(c: Connection, ctx: Context, cmds: seq<seq<Arg>>, fuel: nat)
    returns (answers: seq<Parsing.Result>, ended: bool, ghost lens: seq<int>)
    requires c.Ready() && !c.processing && ctx.CannotExpire()
    requires forall i :: 0 <= i < |cmds| ==> cmds[i] != [] && InMemory(Payloads(cmds[i]))
    requires forall i :: 0 <= i < |cmds| && Encodes(c.opts, cmds[i]) ==>
               fuel > |Encoding(cmds[i])| + c.kernel.patience + 1
    requires forall i :: 0 <= i < |cmds| ==>
               SetupOf(c).NothingIsCut(SetupOf(c).AfterAll(PositionOf(c), cmds, i), cmds[i])
    modifies c`socket, c`base, c`processing, c.kernel, c.coder, c.msgr`socketFd
    modifies c.sendBuf, c.sendBuf.buf, c.recvBuf, c.recvBuf.buf, ctx
    ensures SetupOf(c).RightAnswers(old(PositionOf(c)), cmds, answers, ended)
    ensures !ended ==> |answers| == |cmds| && IsAfter(c, old(PositionOf(c)), cmds, |cmds|)
    ensures ended && answers[|answers| - 1].Err? ==> TooLong(c.kernel.last, answers[|answers| - 1].error)
    ensures SetupOf(c).SendBufLens(lens, cmds, |answers|)
    ensures lens[0] == old(c.sendBuf.buf.Length) && lens[|answers|] == c.sendBuf.buf.Length
  {
    answers := [];
    ghost var p, patience := PositionOf(c), c.kernel.patience;
    lens := [c.sendBuf.buf.Length];
    for k := 0 to |cmds|
      invariant |answers| == k
      invariant IsAfter(c, p, cmds, k) && ctx.CannotExpire() && c.kernel.patience <= patience
      invariant c.sendBuf.buf == old(c.sendBuf.buf) || fresh(c.sendBuf.buf)
      invariant c.recvBuf.buf == old(c.recvBuf.buf) || fresh(c.recvBuf.buf)
      invariant SetupOf(c).RightAnswers(p, cmds, answers, false)
      invariant SetupOf(c).SendBufLens(lens, cmds, k)
      invariant lens[0] == old(c.sendBuf.buf.Length) && lens[k] == c.sendBuf.buf.Length
    {
      var r;
      r, ended := RunNext(c, ctx, cmds[k], fuel, SetupOf(c).AfterAll(p, cmds, k));
      OneMoreAnswer(SetupOf(c), p, cmds, answers, r, ended);
      OneMoreLen(SetupOf(c), lens, cmds, k, c.sendBuf.buf.Length);
      answers, lens := answers + [r], lens + [c.sendBuf.buf.Length];
      if ended {
        return;
      }
    }
    ended := false;
  }

  /** The connection is free, and has got through the first `k` commands of a run from `p`. */
  ghost predicate IsAfter(c: Connection, p: Position, cmds: seq<seq<Arg>>, k: nat)
    requires k <= |cmds|
    reads c, c.kernel, c.msgr, c.sendBuf, c.recvBuf, c.coder
  {
    var q := SetupOf(c).AfterAll(p, cmds, k);
    c.IsReady(q.sent, q.len)
  }

  /** The same from the beginning: a connection is made, and used for commands. */
  method ConnectAndRun(opts: Limits, kernel: Kernel, stack: nat, ctx: Context, cmds: seq<seq<Arg>>, fuel: nat)
    returns (c: Connection?, err: Option<Error>, answers: seq<Parsing.Result>, ended: bool)
    requires opts.Usable() && kernel.socks == map[] && kernel.lockStep && ctx.CannotExpire()
    requires forall i :: 0 <= i < |cmds| ==> cmds[i] != [] && InMemory(Payloads(cmds[i]))
    requires forall i :: 0 <= i < |cmds| && Encodes(opts, cmds[i]) ==>
               fuel > |Encoding(cmds[i])| + kernel.patience + 1
    requires var s := Setup(opts, kernel.reply, stack);
      forall i :: 0 <= i < |cmds| ==>
        s.NothingIsCut(s.AfterAll(Position([], opts.receiveBufMinLen), cmds, i), cmds[i])
    modifies kernel, ctx
    ensures c == null <==> err.Some?
    ensures c == null ==> answers == []
    ensures var s := Setup(opts, kernel.reply, stack);
      && s.RightAnswers(Position([], opts.receiveBufMinLen), cmds, answers, ended)
      && (c != null ==> fresh(c) && SetupOf(c) == s && c.kernel == kernel)
    ensures c != null && !ended ==>
              |answers| == |cmds| && IsAfter(c, Position([], opts.receiveBufMinLen), cmds, |cmds|)
  {
    ended, answers := false, [];
    c, err := NewConnector(opts, kernel, stack);
    if err.None? {
      ghost var lens;
      answers, ended, lens := RunCommands(c, ctx, cmds, fuel);
    }
  }
}
