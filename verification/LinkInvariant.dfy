/** The inductive invariant of the link: over all interleavings at most one transfer is under way, and
    the client's memory is the sequential array after the completed accesses (and the served one). */
module LinkInvariant {
  import opened Words
  import opened Vpipc
  import opened MemoryModel
  import opened CellModel
  import opened CosimLink

  predicate Quiet(s: Sys) {
    s.toClient == [] && s.toServer == [] && s.client == Poll
  }

  /** Neither holding the mutex nor inside a transfer. */
  predicate Parked(p: VPhase) {
    p.Idle? || p.Waiting?
  }

  predicate TcpAway(t: TcpPhase) {
    t.Starting? || t.TimedWait? || t.Exited?
  }

  predicate ValidPhase(p: VPhase) {
    p.Idle? || ValidAccess(p.op)
  }

  /** `answer` is the right response to op, and the memory is that of `before` with op done. */
  predicate Answered(mem: seq<byte>, op: Access, answer: Frame, before: CellArray)
    requires ValidAccess(op)
  {
    Cells(mem) == Apply(before, op) && Answers(answer, op, before)
  }

  /** The six stages of the transfer of the vCPU that holds the mutex. */
  predicate Transfer(s: Sys, p: VPhase, before: CellArray)
    requires ValidPhase(p)
  {
    match p
    case Idle => false
    case Waiting(_) => false
    case Locked(op) => Quiet(s) && Cells(s.mem) == before
    case Sent(op) =>
      (match s.client
       case Poll =>
         || (s.toClient == [Request(op)] && s.toServer == [] && Cells(s.mem) == before)
         || (s.toClient == [] && |s.toServer| == 1 && Answered(s.mem, op, s.toServer[0], before))
       case Receive => s.toClient == [Request(op)] && s.toServer == [] && Cells(s.mem) == before
       case Serve(f) => f == Request(op) && s.toClient == [] && s.toServer == [] && Cells(s.mem) == before
       case Respond => s.toClient == [] && s.toServer == [] && Answered(s.mem, op, s.resp, before)
       case Stopped => false)
    case Got(op, answer) => Quiet(s) && Answered(s.mem, op, answer, before)
  }

  predicate HolderOnly(s: Sys, before: CellArray)
    requires forall v :: 0 <= v < |s.vcpus| ==> ValidPhase(s.vcpus[v])
  {
    match s.lock
    case Nobody => Quiet(s) && TcpAway(s.tcp) && Cells(s.mem) == before
    case Tcp => Quiet(s) && (s.tcp.Top? || s.tcp.Polling?) && Cells(s.mem) == before
    case Vcpu(v) => In(s, v) && TcpAway(s.tcp) && Transfer(s, s.vcpus[v], before)
  }

  /** Every completed access returned what the sequential array returns at its place in lock order. */
  predicate SequentialLog(init: CellArray, log: seq<Done>) {
    && ValidLog(log)
    && forall i :: 0 <= i < |log| ==>
         !log[i].mismatch && log[i].value == Result(Replay(init, log[..i]), log[i].op)
  }

  predicate Inv(s: Sys, init: CellArray) {
    && |s.mem| == MEM_BYTES
    && (forall v :: 0 <= v < |s.vcpus| ==> ValidPhase(s.vcpus[v]))
    && (forall v :: 0 <= v < |s.vcpus| && s.lock != Vcpu(v) ==> Parked(s.vcpus[v]))
    && SequentialLog(init, s.log)
    && HolderOnly(s, Replay(init, s.log))
  }

  lemma StartedInv(s: Sys)
    requires Started(s)
    ensures Inv(s, Cells(s.mem))
  {
  }

  // ---------- one step keeps it ----------

  /** If the step is possible it keeps the invariant. */
  predicate KeepsInv(s: Sys, a: Action, init: CellArray)
    requires |s.mem| == MEM_BYTES
  {
    Step(s, a).Some? ==> Inv(Step(s, a).value, init)
  }

  lemma ClientServeKeepsInv(s: Sys, init: CellArray)
    requires Inv(s, init)
    ensures KeepsInv(s, ClientServe, init)
  {
    if s.client.Serve? {
      HandleApplies(s.mem, s.resp, s.vcpus[s.lock.id].op);
    }
  }

  lemma LogGrows(init: CellArray, log: seq<Done>, d: Done)
    requires SequentialLog(init, log) && ValidAccess(d.op)
    requires !d.mismatch && d.value == Result(Replay(init, log), d.op)
    ensures SequentialLog(init, log + [d]) && Replay(init, log + [d]) == Apply(Replay(init, log), d.op)
  {
    var n, t := |log|, log + [d];
    assert t[..n] == log;
    forall i | 0 <= i < |t|
      ensures ValidAccess(t[i].op) && !t[i].mismatch && t[i].value == Result(Replay(init, t[..i]), t[i].op)
    {
      if i < n { assert t[..i] == log[..i]; }
    }
  }

  lemma ReleaseKeepsInv(s: Sys, v: nat, init: CellArray)
    requires Inv(s, init)
    ensures KeepsInv(s, Release(v), init)
  {
    if Step(s, Release(v)).Some? {
      LogGrows(init, s.log, Finished(v, s.vcpus[v].op, s.vcpus[v].answer));
    }
  }

  lemma IssueKeepsInv(s: Sys, v: nat, op: Access, init: CellArray)
    requires Inv(s, init)
    ensures KeepsInv(s, Issue(v, op), init)
  {
  }

  lemma AcquireKeepsInv(s: Sys, v: nat, init: CellArray)
    requires Inv(s, init)
    ensures KeepsInv(s, Acquire(v), init)
  {
  }

  lemma SendRequestKeepsInv(s: Sys, v: nat, init: CellArray)
    requires Inv(s, init)
    ensures KeepsInv(s, SendRequest(v), init)
  {
  }

  lemma TakeResponseKeepsInv(s: Sys, v: nat, init: CellArray)
    requires Inv(s, init)
    ensures KeepsInv(s, TakeResponse(v), init)
  {
  }

  /** It is taken at the start and again after every condition wait. */
  lemma TcpAcquireKeepsInv(s: Sys, init: CellArray)
    requires Inv(s, init)
    ensures KeepsInv(s, TcpAcquire, init)
  {
  }

  /** The condition wait releases the mutex. */
  lemma TcpTimedWaitKeepsInv(s: Sys, init: CellArray)
    requires Inv(s, init)
    ensures KeepsInv(s, TcpTimedWait, init)
  {
  }

  lemma TcpExitKeepsInv(s: Sys, init: CellArray)
    requires Inv(s, init)
    ensures KeepsInv(s, TcpExit, init)
  {
  }

  lemma TcpPollNothingKeepsInv(s: Sys, init: CellArray)
    requires Inv(s, init)
    ensures KeepsInv(s, TcpPollNothing, init)
  {
  }

  lemma TcpPollReadyKeepsInv(s: Sys, init: CellArray)
    requires Inv(s, init)
    ensures KeepsInv(s, TcpPollReady, init)
  {
  }

  /** The tcp thread never gets as far as receiving. */
  lemma TcpTakeKeepsInv(s: Sys, init: CellArray)
    requires Inv(s, init)
    ensures KeepsInv(s, TcpTake, init)
  {
  }

  lemma TcpReplyKeepsInv(s: Sys, answer: Frame, init: CellArray)
    requires Inv(s, init)
    ensures KeepsInv(s, TcpReply(answer), init)
  {
  }

  lemma ClientPollNothingKeepsInv(s: Sys, init: CellArray)
    requires Inv(s, init)
    ensures KeepsInv(s, ClientPollNothing, init)
  {
  }

  lemma ClientPollReadyKeepsInv(s: Sys, init: CellArray)
    requires Inv(s, init)
    ensures KeepsInv(s, ClientPollReady, init)
  {
  }

  lemma ClientTakeKeepsInv(s: Sys, init: CellArray)
    requires Inv(s, init)
    ensures KeepsInv(s, ClientTake, init)
  {
  }

  lemma ClientSendKeepsInv(s: Sys, init: CellArray)
    requires Inv(s, init)
    ensures KeepsInv(s, ClientSend, init)
  {
  }

  lemma StepKeepsInv(s: Sys, a: Action, init: CellArray)
    requires Inv(s, init)
    ensures KeepsInv(s, a, init)
  {
    match a
    case Issue(v, op) => IssueKeepsInv(s, v, op, init);
    case Acquire(v) => AcquireKeepsInv(s, v, init);
    case SendRequest(v) => SendRequestKeepsInv(s, v, init);
    case TakeResponse(v) => TakeResponseKeepsInv(s, v, init);
    case Release(v) => ReleaseKeepsInv(s, v, init);
    case TcpAcquire => TcpAcquireKeepsInv(s, init);
    case TcpTimedWait => TcpTimedWaitKeepsInv(s, init);
    case TcpExit => TcpExitKeepsInv(s, init);
    case TcpPollNothing => TcpPollNothingKeepsInv(s, init);
    case TcpPollReady => TcpPollReadyKeepsInv(s, init);
    case TcpTake => TcpTakeKeepsInv(s, init);
    case TcpReply(answer) => TcpReplyKeepsInv(s, answer, init);
    case ClientPollNothing => ClientPollNothingKeepsInv(s, init);
    case ClientPollReady => ClientPollReadyKeepsInv(s, init);
    case ClientTake => ClientTakeKeepsInv(s, init);
    case ClientServe => ClientServeKeepsInv(s, init);
    case ClientSend => ClientSendKeepsInv(s, init);
  }

  lemma {:induction false} RunKeepsInv(s: Sys, schedule: seq<Action>, init: CellArray)
    requires Inv(s, init) && Run(s, schedule).Some?
    ensures Inv(Run(s, schedule).value, init)
    decreases |schedule|
  {
    if schedule == [] {
    } else {
      StepKeepsInv(s, schedule[0], init);
      RunKeepsInv(Step(s, schedule[0]).value, schedule[1..], init);
    }
  }
}
