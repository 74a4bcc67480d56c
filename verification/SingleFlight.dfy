/** Any number of callers of Process on one connection, interleaved step by step. The mutex is
    held only around the checks and changes of the flag; everything else happens without it. */
module SingleFlight {
  import opened Bytes

  /** Where a caller is in Process. */
  datatype Pc =
    | Outside
    | Entering        // before Lock
    | Deciding        // holds the mutex, about to look at the flag
    | Refused         // holds the mutex, the flag was set
    | Admitted        // holds the mutex, has set the flag
    | Started         // flag set, mutex released, before the first look at the context
    | Working         // buffers in use, clearBufs deferred
    | Clearing0 | Clearing1 | Clearing2
    | Stopping        // before Lock in stopProcessing
    | Releasing       // holds the mutex, about to reset the flag
    | Released        // holds the mutex, has reset the flag

  /** Positions and contents of the connection's buffers. */
  datatype Buffers = Buffers(sendPos: nat, sentBytes: nat, recvPos: nat, contents: bytes) {
    predicate Empty() {
      sendPos == 0 && sentBytes == 0 && recvPos == 0
    }
  }

  datatype State = State(mutex: Option<nat>, flag: bool, buffers: Buffers, pcs: map<nat, Pc>) {
    function At(c: nat): Pc {
      if c in pcs then pcs[c] else Outside
    }

    function Move(c: nat, pc: Pc): State {
      this.(pcs := pcs[c := pc])
    }
  }

  ghost predicate Initial(s: State) {
    s.mutex == None && !s.flag && s.buffers.Empty() && forall c: nat :: s.At(c) == Outside
  }

  /** Between startProcessing and stopProcessing. */
  predicate InProcess(pc: Pc) {
    pc.Admitted? || pc.Started? || pc.Working? || pc.Clearing0? || pc.Clearing1? || pc.Clearing2?
    || pc.Stopping? || pc.Releasing?
  }

  predicate HoldsMutex(pc: Pc) {
    pc.Deciding? || pc.Refused? || pc.Admitted? || pc.Releasing? || pc.Released?
  }

  /** Caller `c` makes one step. */
  ghost predicate Step(s: State, t: State, c: nat) {
    match s.At(c)
    case Outside => t == s.Move(c, Entering)
    case Entering => s.mutex == None && t == s.Move(c, Deciding).(mutex := Some(c))
    case Deciding => t == if s.flag then s.Move(c, Refused) else s.Move(c, Admitted).(flag := true)
    case Refused => t == s.Move(c, Outside).(mutex := None)
    case Admitted => t == s.Move(c, Started).(mutex := None)
    case Started => t == s.Move(c, Stopping) || t == s.Move(c, Working)
    case Working => t == s.Move(c, Clearing0) || t == s.(buffers := t.buffers)
    case Clearing0 => t == s.Move(c, Clearing1).(buffers := s.buffers.(sendPos := 0))
    case Clearing1 => t == s.Move(c, Clearing2).(buffers := s.buffers.(sentBytes := 0))
    case Clearing2 => t == s.Move(c, Stopping).(buffers := s.buffers.(recvPos := 0))
    case Stopping => s.mutex == None && t == s.Move(c, Releasing).(mutex := Some(c))
    case Releasing => t == s.Move(c, Released).(flag := false)
    case Released => t == s.Move(c, Outside).(mutex := None)
  }

  /** States reached one from the other by steps of any callers in any order. */
  ghost predicate IsRun(run: seq<State>, callers: seq<nat>) {
    && |run| == |callers| + 1
    && Initial(run[0])
    && forall i :: 0 <= i < |callers| ==> Step(run[i], run[i + 1], callers[i])
  }

  ghost predicate Invariant(s: State) {
    && (forall c: nat :: HoldsMutex(s.At(c)) <==> s.mutex == Some(c))
    && (forall c: nat :: InProcess(s.At(c)) ==> s.flag)
    && (forall c: nat, d: nat :: InProcess(s.At(c)) && InProcess(s.At(d)) ==> c == d)
    && (s.flag ==> exists c: nat :: InProcess(s.At(c)))
    && (s.buffers.Empty() || exists c: nat :: BuffersInUse(s, c))
  }

  /** What caller `c` has used and not cleared yet. */
  ghost predicate BuffersInUse(s: State, c: nat) {
    match s.At(c)
    case Working => true
    case Clearing0 => true
    case Clearing1 => s.buffers.sendPos == 0
    case Clearing2 => s.buffers.sendPos == 0 && s.buffers.sentBytes == 0
    case _ => false
  }

  lemma StepKeepsMutex(s: State, t: State, c: nat)
    requires Invariant(s) && Step(s, t, c)
    ensures forall d: nat :: HoldsMutex(t.At(d)) <==> t.mutex == Some(d)
  {
    assert forall d: nat :: d != c ==> t.At(d) == s.At(d);
    assert HoldsMutex(s.At(c)) <==> s.mutex == Some(c);
  }

  lemma StepKeepsFlag(s: State, t: State, c: nat)
    requires Invariant(s) && Step(s, t, c)
    ensures forall d: nat :: InProcess(t.At(d)) ==> t.flag
    ensures forall d: nat, e: nat :: InProcess(t.At(d)) && InProcess(t.At(e)) ==> d == e
    ensures t.flag ==> exists d: nat :: InProcess(t.At(d))
  {
    assert forall d: nat :: d != c ==> t.At(d) == s.At(d);
    if t.flag {
      if s.flag {
        var d :| InProcess(s.At(d));
        assert InProcess(t.At(d));
      } else {
        assert InProcess(t.At(c));
      }
    }
  }

  lemma StepKeepsBuffers(s: State, t: State, c: nat)
    requires Invariant(s) && Step(s, t, c)
    ensures t.buffers.Empty() || exists d: nat :: BuffersInUse(t, d)
  {
    assert forall d: nat :: d != c ==> t.At(d) == s.At(d);
    if !t.buffers.Empty() {
      if s.buffers.Empty() {
        assert BuffersInUse(t, c);
      } else {
        var d :| BuffersInUse(s, d);
        assert InProcess(s.At(d));
        assert InProcess(s.At(c)) ==> c == d;
        assert BuffersInUse(t, d);
      }
    }
  }

  lemma {:induction false} RunsKeepInvariant(run: seq<State>, callers: seq<nat>, i: nat)
    requires IsRun(run, callers) && i < |run|
    ensures Invariant(run[i])
  {
    if i > 0 {
      RunsKeepInvariant(run, callers, i - 1);
      StepKeepsMutex(run[i - 1], run[i], callers[i - 1]);
      StepKeepsFlag(run[i - 1], run[i], callers[i - 1]);
      StepKeepsBuffers(run[i - 1], run[i], callers[i - 1]);
    }
  }

  /** In every reachable state at most one caller is in process, the flag says whether one is,
      and when none is the buffers are empty - also after a cancelled start. */
  lemma SingleFlight(run: seq<State>, callers: seq<nat>, i: nat)
    requires IsRun(run, callers) && i < |run|
    ensures forall c: nat, d: nat :: InProcess(run[i].At(c)) && InProcess(run[i].At(d)) ==> c == d
    ensures run[i].flag <==> exists c: nat :: InProcess(run[i].At(c))
    ensures !run[i].flag ==> run[i].buffers.Empty()
  {
    RunsKeepInvariant(run, callers, i);
    var s := run[i];
    if !s.buffers.Empty() {
      var c :| BuffersInUse(s, c);
      assert InProcess(s.At(c));
    }
  }

  /** A step that changes the buffers is made by the one caller that is in process. */
  lemma OnlyTheHolderChangesBuffers(run: seq<State>, callers: seq<nat>, i: nat)
    requires IsRun(run, callers) && i < |callers| && run[i].buffers != run[i + 1].buffers
    ensures forall c: nat :: InProcess(run[i].At(c)) <==> c == callers[i]
  {
    RunsKeepInvariant(run, callers, i);
    assert Step(run[i], run[i + 1], callers[i]);
    assert InProcess(run[i].At(callers[i]));
  }

  /** A caller is refused only while another one is in process. */
  lemma RefusedOnlyWhenBusy(run: seq<State>, callers: seq<nat>, i: nat) returns (holder: nat)
    requires IsRun(run, callers) && i < |callers|
    requires run[i].At(callers[i]).Deciding? && run[i + 1].At(callers[i]).Refused?
    ensures holder != callers[i] && InProcess(run[i].At(holder))
  {
    RunsKeepInvariant(run, callers, i);
    assert Step(run[i], run[i + 1], callers[i]);
    holder :| InProcess(run[i].At(holder));
  }
}
