/** What the link promises over every schedule: one frame at a time, sequential results, no access lost
    or repeated, and no stale data observed. */
module LinkTheorems {
  import opened Words
  import opened Vpipc
  import opened MemoryModel
  import opened QemuCpuModel
  import opened CellModel
  import opened CosimLink
  import opened LinkInvariant

  // ---------- safety of the shared socket ----------

  /** In every reachable state at most one frame is in flight, none when no vCPU holds the mutex; the tcp
      thread never finds one to take, and the client never reports a TLM error. */
  lemma OneFrameAtATime(s: Sys, schedule: seq<Action>)
    requires Started(s) && Run(s, schedule).Some?
    ensures var t := Run(s, schedule).value;
            && |t.toClient| + |t.toServer| <= 1
            && (!t.lock.Vcpu? ==> t.toClient == [] && t.toServer == [])
            && (t.tcp.Polling? ==> t.lock == Tcp && t.toServer == [])
            && !t.tcp.Receiving? && !t.tcp.Replying? && !t.client.Stopped?
  {
    StartedInv(s);
    RunKeepsInv(s, schedule, Cells(s.mem));
  }

  /** A vCPU is inside a transfer exactly when it holds the mutex, so no two transfers overlap. */
  lemma TransfersExclusive(s: Sys, schedule: seq<Action>, v: nat)
    requires Started(s) && Run(s, schedule).Some? && v < |s.vcpus|
    ensures v < |Run(s, schedule).value.vcpus|
    ensures Parked(Run(s, schedule).value.vcpus[v]) <==> Run(s, schedule).value.lock != Vcpu(v)
  {
    StartedInv(s);
    RunKeepsInv(s, schedule, Cells(s.mem));
    RunKeepsVcpus(s, schedule);
  }

  lemma {:induction false} RunKeepsVcpus(s: Sys, schedule: seq<Action>)
    requires |s.mem| == MEM_BYTES && Run(s, schedule).Some?
    ensures |Run(s, schedule).value.vcpus| == |s.vcpus|
    decreases |schedule|
  {
    if schedule == [] {
    } else {
      StepKeepsSize(s, schedule[0]);
      RunKeepsVcpus(Step(s, schedule[0]).value, schedule[1..]);
    }
  }

  /** The frame vp_b_transfer returns answers this request: its type, VP_OK, and its own address. */
  lemma ResponseMatches(s: Sys, schedule: seq<Action>, v: nat)
    requires Started(s) && Run(s, schedule).Some?
    requires In(Run(s, schedule).value, v) && Run(s, schedule).value.vcpus[v].Got?
    ensures var p := Run(s, schedule).value.vcpus[v];
            && ValidAccess(p.op)
            && p.answer.typ == ResponseType(p.op) && p.answer.word == VP_OK
            && p.answer.addr == MMIO_ADDR + p.op.offset
  {
    StartedInv(s);
    RunKeepsInv(s, schedule, Cells(s.mem));
  }

  // ---------- refinement ----------

  /** The completed accesses are, in lock order, a run of one array of 32-bit cells, and while nobody
      holds the mutex the target's memory is that array. */
  lemma Linearizable(s: Sys, schedule: seq<Action>)
    requires Started(s) && Run(s, schedule).Some?
    ensures var t := Run(s, schedule).value;
            && SequentialLog(Cells(s.mem), t.log)
            && (!t.lock.Vcpu? ==> Cells(t.mem) == Replay(Cells(s.mem), t.log))
  {
    StartedInv(s);
    RunKeepsInv(s, schedule, Cells(s.mem));
  }

  /** Reading back: if the completed accesses end with a write to a cell followed by accesses that leave
      that cell alone, a read of no more bytes returns the low bytes written. */
  lemma ReadYourWrite(init: CellArray, log: seq<Done>, w: nat, r: nat)
    requires SequentialLog(init, log) && w < r < |log|
    requires log[w].op.isWrite && !log[r].op.isWrite
    requires Cell(log[r].op) == Cell(log[w].op) && log[r].op.size <= log[w].op.size
    requires forall i :: w < i < r && log[i].op.isWrite ==> Cell(log[i].op) != Cell(log[w].op)
    ensures log[r].value == log[w].op.value % Pow256(log[r].op.size)
  {
    ForwardedInRange(log[w].op);
    var k := Cell(log[w].op);
    CellKept(init, log, w, r);
    assert log[..w + 1][..w] == log[..w];
    PutThenGet(Replay(init, log[..w])[k], log[w].op.value, log[w].op.size, log[r].op.size);
  }

  lemma {:induction false} CellKept(init: CellArray, log: seq<Done>, w: nat, r: nat)
    requires ValidLog(log) && w < r < |log|
    requires forall i :: w < i < r && log[i].op.isWrite ==> Cell(log[i].op) != Cell(log[w].op)
    ensures Cell(log[w].op) < SIZE
    ensures Replay(init, log[..r])[Cell(log[w].op)] == Replay(init, log[..w + 1])[Cell(log[w].op)]
    decreases r
  {
    ForwardedInRange(log[w].op);
    if w + 1 == r {
    } else {
      CellKept(init, log, w, r - 1);
      assert log[..r][..r - 1] == log[..r - 1];
    }
  }

  // ---------- no access lost, repeated or reordered ----------

  function Completed(log: seq<Done>, v: nat): seq<Access> {
    if log == [] then []
    else
      var d := log[|log| - 1];
      Completed(log[..|log| - 1], v) + if d.vcpu == v then [d.op] else []
  }

  function Pending(p: VPhase): seq<Access> {
    if p.Idle? then [] else [p.op]
  }

  function Issued(schedule: seq<Action>, v: nat): seq<Access> {
    if schedule == [] then []
    else
      var a := schedule[0];
      (if a.Issue? && a.v == v then [a.op] else []) + Issued(schedule[1..], v)
  }

  lemma IssuedOne(a: Action, v: nat)
    ensures Issued([a], v) == if a.Issue? && a.v == v then [a.op] else []
  {
    assert [a][1..] == [];
  }

  lemma AppendToLast(c: seq<Access>, p: seq<Access>, q: seq<Access>, i: seq<Access>)
    requires q == p + i
    ensures c + q == c + p + i
  {
  }

  lemma AppendNothing(x: seq<Access>)
    ensures x == x + []
  {
  }

  lemma StepConserves(s: Sys, a: Action, v: nat)
    requires |s.mem| == MEM_BYTES && In(s, v) && Step(s, a).Some?
    ensures var t := Step(s, a).value;
            In(t, v) && Completed(t.log, v) + Pending(t.vcpus[v])
            == Completed(s.log, v) + Pending(s.vcpus[v]) + Issued([a], v)
  {
    StepKeepsSize(s, a);
    IssuedOne(a, v);
    if a.Release? {
      ReleaseConserves(s, a.v, v);
      AppendNothing(Completed(s.log, v) + Pending(s.vcpus[v]));
    } else if a.Issue? {
      IssueConserves(s, a, v);
      AppendToLast(Completed(s.log, v), Pending(s.vcpus[v]), Pending(Step(s, a).value.vcpus[v]), Issued([a], v));
    } else {
      OtherConserves(s, a, v);
      AppendNothing(Completed(s.log, v) + Pending(s.vcpus[v]));
    }
  }

  lemma ReleaseConserves(s: Sys, u: nat, v: nat)
    requires |s.mem| == MEM_BYTES && In(s, v) && Step(s, Release(u)).Some?
    ensures var t := Step(s, Release(u)).value;
            Completed(t.log, v) + Pending(t.vcpus[v]) == Completed(s.log, v) + Pending(s.vcpus[v])
  {
    var t := Step(s, Release(u)).value;
    assert t.log[..|s.log|] == s.log;
  }

  lemma IssueConserves(s: Sys, a: Action, v: nat)
    requires |s.mem| == MEM_BYTES && In(s, v) && a.Issue? && Step(s, a).Some?
    ensures var t := Step(s, a).value;
            t.log == s.log && Pending(t.vcpus[v]) == Pending(s.vcpus[v]) + if a.v == v then [a.op] else []
  {
  }

  lemma OtherConserves(s: Sys, a: Action, v: nat)
    requires |s.mem| == MEM_BYTES && In(s, v) && Step(s, a).Some? && !a.Issue? && !a.Release?
    ensures var t := Step(s, a).value; t.log == s.log && Pending(t.vcpus[v]) == Pending(s.vcpus[v])
  {
  }

  /** One more completed access is one more for its own vCPU, the last, and none for the others. */
  lemma CompletedOneMore(log: seq<Done>, d: Done, v: nat)
    ensures Completed(log + [d], v) == Completed(log, v) + if d.vcpu == v then [d.op] else []
  {
    assert (log + [d])[..|log|] == log;
  }

  lemma IssuedFirst(schedule: seq<Action>, v: nat)
    requires schedule != []
    ensures Issued(schedule, v) == Issued([schedule[0]], v) + Issued(schedule[1..], v)
  {
    assert [schedule[0]][1..] == [];
  }

  lemma Chain(x: seq<Access>, y: seq<Access>, z: seq<Access>, a: seq<Access>, b: seq<Access>)
    requires y == x + a && z == y + b
    ensures z == x + (a + b)
  {
  }

  /** Each vCPU's completed accesses, with the one it is waiting for, are what it issued, in its order. */
  lemma {:induction false} AccessesConserved(s: Sys, schedule: seq<Action>, v: nat)
    requires |s.mem| == MEM_BYTES && In(s, v) && Run(s, schedule).Some?
    ensures var t := Run(s, schedule).value;
            In(t, v) && Completed(t.log, v) + Pending(t.vcpus[v])
            == Completed(s.log, v) + Pending(s.vcpus[v]) + Issued(schedule, v)
    decreases |schedule|
  {
    if schedule == [] {
    } else {
      var t := Step(s, schedule[0]).value;
      var u := Run(s, schedule).value;
      StepConserves(s, schedule[0], v);
      AccessesConserved(t, schedule[1..], v);
      IssuedFirst(schedule, v);
      Chain(Completed(s.log, v) + Pending(s.vcpus[v]), Completed(t.log, v) + Pending(t.vcpus[v]),
            Completed(u.log, v) + Pending(u.vcpus[v]), Issued([schedule[0]], v), Issued(schedule[1..], v));
    }
  }

  // ---------- the reused response record ----------

  /** Equal except for data that only a read response defines. */
  predicate SameFrame(f: Frame, g: Frame) {
    f.typ == g.typ && f.word == g.word && f.addr == g.addr && (f.typ == VP_READ_RESP ==> f.data == g.data)
  }

  predicate SamePhase(p: VPhase, q: VPhase) {
    if p.Got? && q.Got? then p.op == q.op && SameFrame(p.answer, q.answer) else p == q
  }

  predicate SameButStale(s: Sys, t: Sys) {
    && s.lock == t.lock && s.tcp == t.tcp && s.client == t.client
    && s.mem == t.mem && s.toClient == t.toClient && s.log == t.log
    && |s.vcpus| == |t.vcpus| && (forall v :: 0 <= v < |s.vcpus| ==> SamePhase(s.vcpus[v], t.vcpus[v]))
    && |s.toServer| == |t.toServer|
    && (forall i :: 0 <= i < |s.toServer| ==> SameFrame(s.toServer[i], t.toServer[i]))
    && (s.client.Respond? ==> SameFrame(s.resp, t.resp))
  }

  /** For the two request types the link carries, an old record shows only where a write leaves data unset. */
  lemma ServeKeepsSame(mem: seq<byte>, stale1: Frame, stale2: Frame, f: Frame)
    requires |mem| == MEM_BYTES && Check(f) == Ok && (f.typ == VP_WRITE || f.typ == VP_READ)
    ensures var o, u := Handle(mem, stale1, f), Handle(mem, stale2, f);
            o.Replied? && u.Replied? && o.mem == u.mem && SameFrame(o.resp, u.resp)
  {
  }

  /** The step is possible in both states or in neither, and keeps them the same. */
  predicate KeepsSame(s: Sys, t: Sys, a: Action)
    requires |s.mem| == MEM_BYTES && |t.mem| == MEM_BYTES
  {
    && (Step(s, a).Some? <==> Step(t, a).Some?)
    && (Step(s, a).Some? ==> SameButStale(Step(s, a).value, Step(t, a).value))
  }

  predicate Twins(s: Sys, t: Sys, init: CellArray) {
    Inv(s, init) && Inv(t, init) && SameButStale(s, t)
  }

  lemma IssueKeepsSame(s: Sys, t: Sys, v: nat, op: Access, init: CellArray)
    requires Twins(s, t, init)
    ensures KeepsSame(s, t, Issue(v, op))
  {
  }

  lemma AcquireKeepsSame(s: Sys, t: Sys, v: nat, init: CellArray)
    requires Twins(s, t, init)
    ensures KeepsSame(s, t, Acquire(v))
  {
  }

  lemma SendRequestKeepsSame(s: Sys, t: Sys, v: nat, init: CellArray)
    requires Twins(s, t, init)
    ensures KeepsSame(s, t, SendRequest(v))
  {
  }

  lemma TakeResponseKeepsSame(s: Sys, t: Sys, v: nat, init: CellArray)
    requires Twins(s, t, init)
    ensures KeepsSame(s, t, TakeResponse(v))
  {
  }

  lemma ReleaseKeepsSame(s: Sys, t: Sys, v: nat, init: CellArray)
    requires Twins(s, t, init)
    ensures KeepsSame(s, t, Release(v))
  {
  }

  lemma TcpAcquireKeepsSame(s: Sys, t: Sys, init: CellArray)
    requires Twins(s, t, init)
    ensures KeepsSame(s, t, TcpAcquire)
  {
  }

  lemma TcpTimedWaitKeepsSame(s: Sys, t: Sys, init: CellArray)
    requires Twins(s, t, init)
    ensures KeepsSame(s, t, TcpTimedWait)
  {
  }

  lemma TcpExitKeepsSame(s: Sys, t: Sys, init: CellArray)
    requires Twins(s, t, init)
    ensures KeepsSame(s, t, TcpExit)
  {
  }

  lemma TcpPollNothingKeepsSame(s: Sys, t: Sys, init: CellArray)
    requires Twins(s, t, init)
    ensures KeepsSame(s, t, TcpPollNothing)
  {
  }

  lemma TcpPollReadyKeepsSame(s: Sys, t: Sys, init: CellArray)
    requires Twins(s, t, init)
    ensures KeepsSame(s, t, TcpPollReady)
  {
  }

  lemma TcpTakeKeepsSame(s: Sys, t: Sys, init: CellArray)
    requires Twins(s, t, init)
    ensures KeepsSame(s, t, TcpTake)
  {
  }

  lemma TcpReplyKeepsSame(s: Sys, t: Sys, answer: Frame, init: CellArray)
    requires Twins(s, t, init)
    ensures KeepsSame(s, t, TcpReply(answer))
  {
  }

  lemma ClientPollNothingKeepsSame(s: Sys, t: Sys, init: CellArray)
    requires Twins(s, t, init)
    ensures KeepsSame(s, t, ClientPollNothing)
  {
  }

  lemma ClientPollReadyKeepsSame(s: Sys, t: Sys, init: CellArray)
    requires Twins(s, t, init)
    ensures KeepsSame(s, t, ClientPollReady)
  {
  }

  lemma ClientTakeKeepsSame(s: Sys, t: Sys, init: CellArray)
    requires Twins(s, t, init)
    ensures KeepsSame(s, t, ClientTake)
  {
  }

  lemma ClientServeKeepsSame(s: Sys, t: Sys, init: CellArray)
    requires Twins(s, t, init)
    ensures KeepsSame(s, t, ClientServe)
  {
    if s.client.Serve? {
      ForwardedInRange(s.vcpus[s.lock.id].op);
      ServeKeepsSame(s.mem, s.resp, t.resp, s.client.request);
    }
  }

  lemma ClientSendKeepsSame(s: Sys, t: Sys, init: CellArray)
    requires Twins(s, t, init)
    ensures KeepsSame(s, t, ClientSend)
  {
  }

  lemma StepKeepsSame(s: Sys, t: Sys, a: Action, init: CellArray)
    requires Twins(s, t, init)
    ensures KeepsSame(s, t, a)
  {
    match a
    case Issue(v, op) => IssueKeepsSame(s, t, v, op, init);
    case Acquire(v) => AcquireKeepsSame(s, t, v, init);
    case SendRequest(v) => SendRequestKeepsSame(s, t, v, init);
    case TakeResponse(v) => TakeResponseKeepsSame(s, t, v, init);
    case Release(v) => ReleaseKeepsSame(s, t, v, init);
    case TcpAcquire => TcpAcquireKeepsSame(s, t, init);
    case TcpTimedWait => TcpTimedWaitKeepsSame(s, t, init);
    case TcpExit => TcpExitKeepsSame(s, t, init);
    case TcpPollNothing => TcpPollNothingKeepsSame(s, t, init);
    case TcpPollReady => TcpPollReadyKeepsSame(s, t, init);
    case TcpTake => TcpTakeKeepsSame(s, t, init);
    case TcpReply(answer) => TcpReplyKeepsSame(s, t, answer, init);
    case ClientPollNothing => ClientPollNothingKeepsSame(s, t, init);
    case ClientPollReady => ClientPollReadyKeepsSame(s, t, init);
    case ClientTake => ClientTakeKeepsSame(s, t, init);
    case ClientServe => ClientServeKeepsSame(s, t, init);
    case ClientSend => ClientSendKeepsSame(s, t, init);
  }

  lemma {:induction false} RunKeepsSame(s: Sys, t: Sys, schedule: seq<Action>, init: CellArray)
    requires Inv(s, init) && Inv(t, init) && SameButStale(s, t)
    ensures Run(s, schedule).Some? <==> Run(t, schedule).Some?
    ensures Run(s, schedule).Some? ==> SameButStale(Run(s, schedule).value, Run(t, schedule).value)
    decreases |schedule|
  {
    if schedule == [] {
    } else {
      var a := schedule[0];
      StepKeepsSame(s, t, a, init);
      if Step(s, a).Some? {
        StepKeepsInv(s, a, init);
        StepKeepsInv(t, a, init);
        RunKeepsSame(Step(s, a).value, Step(t, a).value, schedule[1..], init);
      }
    }
  }

  /** Whatever the response record first held, the same schedules are possible and the guest gets the
      same results from the same memory. */
  lemma NoStaleDataObserved(s: Sys, stale: Frame, schedule: seq<Action>)
    requires Started(s)
    ensures var t := s.(resp := stale);
            && (Run(s, schedule).Some? <==> Run(t, schedule).Some?)
            && (Run(s, schedule).Some?
                ==> Run(s, schedule).value.log == Run(t, schedule).value.log
                    && Run(s, schedule).value.mem == Run(t, schedule).value.mem)
  {
    var t := s.(resp := stale);
    StartedInv(s);
    StartedInv(t);
    RunKeepsSame(s, t, schedule, Cells(s.mem));
  }
}
