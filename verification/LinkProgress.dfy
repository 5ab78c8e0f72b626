/** Progress of the link: every transfer ends after a known number of steps, nothing deadlocks, and a vCPU
    that waits can always be served. */
module LinkProgress {
  import opened Vpipc
  import opened MemoryModel
  import opened QemuCpuModel
  import opened CellModel
  import opened CosimLink
  import opened LinkInvariant
  import opened LinkTheorems

  /** Steps left until the mutex is free again, from the holder's and the client's positions. */
  function Left(s: Sys): nat {
    match s.lock
    case Nobody => 0
    case Tcp => if s.tcp.Polling? then 2 else 1
    case Vcpu(v) =>
      if !In(s, v) then 0
      else match s.vcpus[v]
        case Locked(_) => 7
        case Sent(_) =>
          if s.toClient != [] then (if s.client.Poll? then 6 else 5)
          else if s.toServer != [] then 2
          else if s.client.Serve? then 4 else 3
        case Got(_, _) => 1
        case _ => 0
  }

  /** Everything but a new request on some other vCPU and an empty poll by the client. */
  predicate Moves(a: Action) {
    !a.Issue? && !a.ClientPollNothing?
  }

  /** The step that can be taken while somebody holds the mutex. */
  function Next(s: Sys): Action {
    match s.lock
    case Nobody => ClientPollNothing
    case Tcp => if s.tcp.Polling? then TcpPollNothing else TcpTimedWait
    case Vcpu(v) =>
      if Left(s) == 7 then SendRequest(v) else if Left(s) == 6 then ClientPollReady
      else if Left(s) == 5 then ClientTake else if Left(s) == 4 then ClientServe
      else if Left(s) == 3 then ClientSend else if Left(s) == 2 then TakeResponse(v) else Release(v)
  }

  /** Some moving step is possible, and the release is one to seven moving steps away. */
  predicate CanMove(s: Sys)
    requires |s.mem| == MEM_BYTES
  {
    1 <= Left(s) <= 7 && Moves(Next(s)) && Step(s, Next(s)).Some?
  }

  lemma TcpCanMove(s: Sys, init: CellArray)
    requires Inv(s, init) && s.lock == Tcp
    ensures CanMove(s)
  {
  }

  lemma LockedCanMove(s: Sys, v: nat, init: CellArray)
    requires Inv(s, init) && s.lock == Vcpu(v) && s.vcpus[v].Locked?
    ensures CanMove(s)
  {
  }

  lemma RequestCanMove(s: Sys, v: nat, init: CellArray)
    requires Inv(s, init) && s.lock == Vcpu(v) && s.vcpus[v].Sent? && s.toClient != []
    ensures CanMove(s)
  {
  }

  lemma ServingCanMove(s: Sys, v: nat, init: CellArray)
    requires Inv(s, init) && s.lock == Vcpu(v) && s.vcpus[v].Sent? && s.toClient == [] && s.toServer == []
    ensures CanMove(s)
  {
  }

  lemma ResponseCanMove(s: Sys, v: nat, init: CellArray)
    requires Inv(s, init) && s.lock == Vcpu(v) && s.vcpus[v].Sent? && s.toClient == [] && s.toServer != []
    ensures CanMove(s)
  {
  }

  lemma GotCanMove(s: Sys, v: nat, init: CellArray)
    requires Inv(s, init) && s.lock == Vcpu(v) && s.vcpus[v].Got?
    ensures CanMove(s)
  {
  }

  /** While the mutex is held some moving step is possible: the link never deadlocks. */
  lemma HolderCanMove(s: Sys, init: CellArray)
    requires Inv(s, init) && s.lock != Nobody
    ensures CanMove(s)
  {
    match s.lock
    case Tcp => TcpCanMove(s, init);
    case Vcpu(v) =>
      if s.vcpus[v].Locked? {
        LockedCanMove(s, v, init);
      } else if s.vcpus[v].Got? {
        GotCanMove(s, v, init);
      } else if s.toClient != [] {
        RequestCanMove(s, v, init);
      } else if s.toServer != [] {
        ResponseCanMove(s, v, init);
      } else {
        ServingCanMove(s, v, init);
      }
  }

  // ---------- every step counts ----------

  /** If the step is possible, it brings the release one closer if it moves and leaves it where it was if not,
      and the holder's access is logged exactly when the mutex becomes free. */
  predicate CountsDown(s: Sys, a: Action)
    requires |s.mem| == MEM_BYTES
  {
    Step(s, a).Some? ==>
      var t := Step(s, a).value;
      && Left(t) == Left(s) - (if Moves(a) then 1 else 0)
      && t.lock == (if Left(t) == 0 then Nobody else s.lock)
      && (a.ClientPollNothing? ==> t == s && s.toClient == [])
      && (Left(t) > 0 ==> t.log == s.log && SameHolder(s, t))
      && (Left(t) == 0 ==> Ended(s, t))
  }

  /** The access of the vCPU that holds the mutex is still under way. */
  predicate SameHolder(s: Sys, t: Sys) {
    s.lock.Vcpu? && In(s, s.lock.id) && s.vcpus[s.lock.id] != Idle
    ==> In(t, s.lock.id) && t.vcpus[s.lock.id] != Idle && t.vcpus[s.lock.id].op == s.vcpus[s.lock.id].op
  }

  /** The mutex is free again; a vCPU that held it has completed its access, and nothing else was completed. */
  predicate Ended(s: Sys, t: Sys) {
    && t.lock == Nobody
    && if s.lock.Vcpu? && In(s, s.lock.id) && s.vcpus[s.lock.id] != Idle
       then && |t.log| == |s.log| + 1 && t.log[..|s.log|] == s.log
            && t.log[|s.log|].vcpu == s.lock.id && t.log[|s.log|].op == s.vcpus[s.lock.id].op
       else t.log == s.log
  }

  lemma IssueCountsDown(s: Sys, v: nat, op: Access, init: CellArray)
    requires Inv(s, init) && s.lock != Nobody
    ensures CountsDown(s, Issue(v, op))
  {
  }

  lemma AcquireCountsDown(s: Sys, v: nat, init: CellArray)
    requires Inv(s, init) && s.lock != Nobody
    ensures CountsDown(s, Acquire(v))
  {
  }

  lemma SendRequestCountsDown(s: Sys, v: nat, init: CellArray)
    requires Inv(s, init) && s.lock != Nobody
    ensures CountsDown(s, SendRequest(v))
  {
  }

  lemma TakeResponseCountsDown(s: Sys, v: nat, init: CellArray)
    requires Inv(s, init) && s.lock != Nobody
    ensures CountsDown(s, TakeResponse(v))
  {
  }

  lemma ReleaseCountsDown(s: Sys, v: nat, init: CellArray)
    requires Inv(s, init) && s.lock != Nobody
    ensures CountsDown(s, Release(v))
  {
  }

  lemma TcpAcquireCountsDown(s: Sys, init: CellArray)
    requires Inv(s, init) && s.lock != Nobody
    ensures CountsDown(s, TcpAcquire)
  {
  }

  lemma TcpTimedWaitCountsDown(s: Sys, init: CellArray)
    requires Inv(s, init) && s.lock != Nobody
    ensures CountsDown(s, TcpTimedWait)
  {
  }

  lemma TcpExitCountsDown(s: Sys, init: CellArray)
    requires Inv(s, init) && s.lock != Nobody
    ensures CountsDown(s, TcpExit)
  {
  }

  lemma TcpPollNothingCountsDown(s: Sys, init: CellArray)
    requires Inv(s, init) && s.lock != Nobody
    ensures CountsDown(s, TcpPollNothing)
  {
  }

  lemma TcpPollReadyCountsDown(s: Sys, init: CellArray)
    requires Inv(s, init) && s.lock != Nobody
    ensures CountsDown(s, TcpPollReady)
  {
  }

  lemma TcpTakeCountsDown(s: Sys, init: CellArray)
    requires Inv(s, init) && s.lock != Nobody
    ensures CountsDown(s, TcpTake)
  {
  }

  lemma TcpReplyCountsDown(s: Sys, answer: Frame, init: CellArray)
    requires Inv(s, init) && s.lock != Nobody
    ensures CountsDown(s, TcpReply(answer))
  {
  }

  lemma ClientPollNothingCountsDown(s: Sys, init: CellArray)
    requires Inv(s, init) && s.lock != Nobody
    ensures CountsDown(s, ClientPollNothing)
  {
  }

  lemma ClientPollReadyCountsDown(s: Sys, init: CellArray)
    requires Inv(s, init) && s.lock != Nobody
    ensures CountsDown(s, ClientPollReady)
  {
  }

  lemma ClientTakeCountsDown(s: Sys, init: CellArray)
    requires Inv(s, init) && s.lock != Nobody
    ensures CountsDown(s, ClientTake)
  {
  }

  lemma ClientServeCountsDown(s: Sys, init: CellArray)
    requires Inv(s, init) && s.lock != Nobody
    ensures CountsDown(s, ClientServe)
  {
    if s.client.Serve? {
      HandleRefinesCells(s.mem, s.resp, s.vcpus[s.lock.id].op);
    }
  }

  lemma ClientSendCountsDown(s: Sys, init: CellArray)
    requires Inv(s, init) && s.lock != Nobody
    ensures CountsDown(s, ClientSend)
  {
  }

  /** Each moving step brings the release one closer; the others leave the transfer where it was, and an
      empty poll by the client is a stutter possible only with an empty queue. */
  lemma StepsCountDown(s: Sys, a: Action, init: CellArray)
    requires Inv(s, init) && s.lock != Nobody
    ensures CountsDown(s, a)
  {
    match a
    case Issue(v, op) => IssueCountsDown(s, v, op, init);
    case Acquire(v) => AcquireCountsDown(s, v, init);
    case SendRequest(v) => SendRequestCountsDown(s, v, init);
    case TakeResponse(v) => TakeResponseCountsDown(s, v, init);
    case Release(v) => ReleaseCountsDown(s, v, init);
    case TcpAcquire => TcpAcquireCountsDown(s, init);
    case TcpTimedWait => TcpTimedWaitCountsDown(s, init);
    case TcpExit => TcpExitCountsDown(s, init);
    case TcpPollNothing => TcpPollNothingCountsDown(s, init);
    case TcpPollReady => TcpPollReadyCountsDown(s, init);
    case TcpTake => TcpTakeCountsDown(s, init);
    case TcpReply(answer) => TcpReplyCountsDown(s, answer, init);
    case ClientPollNothing => ClientPollNothingCountsDown(s, init);
    case ClientPollReady => ClientPollReadyCountsDown(s, init);
    case ClientTake => ClientTakeCountsDown(s, init);
    case ClientServe => ClientServeCountsDown(s, init);
    case ClientSend => ClientSendCountsDown(s, init);
  }

  function Moved(schedule: seq<Action>): nat {
    if schedule == [] then 0 else (if Moves(schedule[0]) then 1 else 0) + Moved(schedule[1..])
  }

  lemma PrefixOf(s: Sys, schedule: seq<Action>, k: nat)
    requires |s.mem| == MEM_BYTES && 0 < k <= |schedule| && Step(s, schedule[0]).Some?
    ensures |Step(s, schedule[0]).value.mem| == MEM_BYTES
    ensures Run(s, schedule[..k]) == Run(Step(s, schedule[0]).value, schedule[1..][..k - 1])
    ensures Moved(schedule[..k]) == (if Moves(schedule[0]) then 1 else 0) + Moved(schedule[1..][..k - 1])
  {
    StepKeepsSize(s, schedule[0]);
    assert schedule[..k][1..] == schedule[1..][..k - 1];
  }

  lemma FirstMove(s: Sys, a: Action, init: CellArray)
    requires Inv(s, init) && s.lock != Nobody && Step(s, a).Some?
    ensures var t := Step(s, a).value;
            && Inv(t, init) && Left(t) == Left(s) - (if Moves(a) then 1 else 0)
            && (Left(t) == 0 ==> Ended(s, t))
            && (Left(t) > 0 ==> t.lock != Nobody && forall u :: Ended(t, u) ==> Ended(s, u))
  {
    HolderCanMove(s, init);
    StepsCountDown(s, a, init);
    StepKeepsInv(s, a, init);
  }

  /** Every schedule with enough moving steps reaches the release of the mutex after exactly Left(s) of
      them, and a vCPU that held it has then completed its access. */
  lemma {:induction false} TransferEnds(s: Sys, schedule: seq<Action>, init: CellArray) returns (k: nat)
    requires Inv(s, init) && s.lock != Nobody
    requires Run(s, schedule).Some? && Moved(schedule) >= Left(s)
    ensures k <= |schedule| && Moved(schedule[..k]) == Left(s)
    ensures Run(s, schedule[..k]).Some? && Ended(s, Run(s, schedule[..k]).value)
    decreases |schedule|
  {
    HolderCanMove(s, init);
    var a, rest := schedule[0], schedule[1..];
    var t := Step(s, a).value;
    FirstMove(s, a, init);
    assert Moved(schedule) == (if Moves(a) then 1 else 0) + Moved(rest);
    if Left(t) == 0 {
      k := 1;
    } else {
      var j := TransferEnds(t, rest, init);
      k := j + 1;
    }
    PrefixOf(s, schedule, k);
  }

  // ---------- from the start ----------

  /** In every reachable state with the mutex held some moving step is possible. */
  lemma NeverStuck(s: Sys, schedule: seq<Action>)
    requires Started(s) && Run(s, schedule).Some? && Run(s, schedule).value.lock != Nobody
    ensures |Run(s, schedule).value.mem| == MEM_BYTES && CanMove(Run(s, schedule).value)
  {
    StartedInv(s);
    RunKeepsInv(s, schedule, Cells(s.mem));
    HolderCanMove(Run(s, schedule).value, Cells(s.mem));
  }

  /** From every reachable state with the mutex held, at most seven moving steps, whatever else is interleaved
      with them, free it with the holder's access completed. */
  lemma ReachedTransferEnds(s: Sys, schedule: seq<Action>, more: seq<Action>) returns (k: nat)
    requires Started(s) && Run(s, schedule).Some? && |Run(s, schedule).value.mem| == MEM_BYTES
    requires Run(s, schedule).value.lock != Nobody && Run(Run(s, schedule).value, more).Some? && Moved(more) >= 7
    ensures k <= |more| && Moved(more[..k]) <= 7 && Run(Run(s, schedule).value, more[..k]).Some?
    ensures Ended(Run(s, schedule).value, Run(Run(s, schedule).value, more[..k]).value)
  {
    StartedInv(s);
    RunKeepsInv(s, schedule, Cells(s.mem));
    HolderCanMove(Run(s, schedule).value, Cells(s.mem));
    k := TransferEnds(Run(s, schedule).value, more, Cells(s.mem));
  }

  lemma {:induction false} RunJoins(s: Sys, first: seq<Action>, more: seq<Action>)
    requires |s.mem| == MEM_BYTES && Run(s, first).Some?
    ensures |Run(s, first).value.mem| == MEM_BYTES
    ensures Run(s, first + more) == Run(Run(s, first).value, more)
    decreases |first|
  {
    if first == [] {
      assert first + more == more;
    } else {
      StepKeepsSize(s, first[0]);
      RunJoins(Step(s, first[0]).value, first[1..], more);
      assert (first + more)[1..] == first[1..] + more;
    }
  }

  lemma RunStep(s: Sys, a: Action, rest: seq<Action>)
    requires |s.mem| == MEM_BYTES && Step(s, a).Some?
    ensures |Step(s, a).value.mem| == MEM_BYTES && Run(s, [a] + rest) == Run(Step(s, a).value, rest)
  {
    StepKeepsSize(s, a);
    assert ([a] + rest)[1..] == rest;
  }

  /** The step is not one of vCPU v's own. */
  predicate Anothers(a: Action, v: nat) {
    match a
    case Issue(u, _) => u != v
    case Acquire(u) => u != v
    case SendRequest(u) => u != v
    case TakeResponse(u) => u != v
    case Release(u) => u != v
    case _ => true
  }

  lemma StepKeepsOthers(s: Sys, a: Action, v: nat)
    requires |s.mem| == MEM_BYTES && In(s, v) && Anothers(a, v) && Step(s, a).Some?
    ensures In(Step(s, a).value, v) && Step(s, a).value.vcpus[v] == s.vcpus[v]
  {
  }

  lemma NextIsAnothers(s: Sys, v: nat, init: CellArray)
    requires Inv(s, init) && s.lock != Nobody && In(s, v) && s.vcpus[v].Waiting?
    ensures Anothers(Next(s), v)
  {
  }

  /** The moving steps of the holder, one after the other, free the mutex. */
  lemma {:induction false} Drain(s: Sys, v: nat, init: CellArray) returns (steps: seq<Action>)
    requires Inv(s, init) && s.lock != Nobody && In(s, v)
    ensures |steps| == Left(s) && Run(s, steps).Some? && Inv(Run(s, steps).value, init)
    ensures Ended(s, Run(s, steps).value)
    ensures s.vcpus[v].Waiting? ==> In(Run(s, steps).value, v) && Run(s, steps).value.vcpus[v] == s.vcpus[v]
    decreases Left(s)
  {
    HolderCanMove(s, init);
    var a := Next(s);
    var t := Step(s, a).value;
    FirstMove(s, a, init);
    if s.vcpus[v].Waiting? {
      NextIsAnothers(s, v, init);
      StepKeepsOthers(s, a, v);
    }
    StepKeepsSize(s, a);
    var rest: seq<Action> := [];
    if Left(t) > 0 {
      rest := Drain(t, v, init);
    }
    steps := [a] + rest;
    RunStep(s, a, rest);
  }

  /** The last completed access is v's access op, and the mutex is free. */
  predicate JustCompleted(u: Sys, v: nat, op: Access) {
    u.lock == Nobody && u.log != [] && u.log[|u.log| - 1].vcpu == v && u.log[|u.log| - 1].op == op
  }

  /** A vCPU that waits while the mutex is free can take it, and seven steps later its access is completed. */
  lemma WaiterServed(s: Sys, v: nat, init: CellArray) returns (steps: seq<Action>)
    requires Inv(s, init) && s.lock == Nobody && In(s, v) && s.vcpus[v].Waiting?
    ensures |steps| == 8 && Run(s, steps).Some?
    ensures JustCompleted(Run(s, steps).value, v, s.vcpus[v].op) && |Run(s, steps).value.log| == |s.log| + 1
  {
    var a := Acquire(v);
    var t := Step(s, a).value;
    StepKeepsInv(s, a, init);
    var rest := Drain(t, v, init);
    steps := [a] + rest;
    RunStep(s, a, rest);
  }

  lemma HolderThenWaiter(t: Sys, v: nat, init: CellArray) returns (steps: seq<Action>)
    requires Inv(t, init) && t.lock != Nobody && In(t, v) && t.vcpus[v].Waiting?
    ensures |steps| <= 15 && Run(t, steps).Some?
    ensures JustCompleted(Run(t, steps).value, v, t.vcpus[v].op) && |t.log| < |Run(t, steps).value.log|
  {
    HolderCanMove(t, init);
    var first := Drain(t, v, init);
    var u := Run(t, first).value;
    var second := WaiterServed(u, v, init);
    steps := first + second;
    RunJoins(t, first, second);
  }

  /** From every reachable state, a vCPU that waits can have its access completed within fifteen steps: seven
      at most to free the mutex, one to take it, seven to its own release. */
  lemma WaiterCanComplete(s: Sys, schedule: seq<Action>, v: nat) returns (steps: seq<Action>)
    requires Started(s) && Run(s, schedule).Some?
    requires In(Run(s, schedule).value, v) && Run(s, schedule).value.vcpus[v].Waiting?
    ensures |steps| <= 15 && Run(s, schedule + steps).Some?
    ensures JustCompleted(Run(s, schedule + steps).value, v, Run(s, schedule).value.vcpus[v].op)
    ensures |Run(s, schedule).value.log| < |Run(s, schedule + steps).value.log|
  {
    var t := Run(s, schedule).value;
    StartedInv(s);
    RunKeepsInv(s, schedule, Cells(s.mem));
    steps := WaiterFrom(t, v, Cells(s.mem));
    RunJoins(s, schedule, steps);
  }

  lemma WaiterFrom(t: Sys, v: nat, init: CellArray) returns (steps: seq<Action>)
    requires Inv(t, init) && In(t, v) && t.vcpus[v].Waiting?
    ensures |steps| <= 15 && Run(t, steps).Some?
    ensures JustCompleted(Run(t, steps).value, v, t.vcpus[v].op) && |t.log| < |Run(t, steps).value.log|
  {
    if t.lock == Nobody {
      steps := WaiterServed(t, v, init);
    } else {
      steps := HolderThenWaiter(t, v, init);
    }
  }

  // ---------- how long a vCPU can wait ----------

  /** Who is given the mutex in the course of a schedule, in order. */
  function Turns(schedule: seq<Action>): seq<Owner> {
    if schedule == [] then []
    else
      (match schedule[0]
       case Acquire(v) => [Vcpu(v)]
       case TcpAcquire => [Tcp]
       case _ => [])
      + Turns(schedule[1..])
  }

  lemma TurnsOfOne(a: Action)
    ensures Turns([a]) == match a
                          case Acquire(v) => [Vcpu(v)]
                          case TcpAcquire => [Tcp]
                          case _ => []
  {
    assert [a][1..] == [];
  }

  /** While the mutex is free the only moving steps are those that take it. */
  lemma FreeStep(s: Sys, a: Action, init: CellArray)
    requires Inv(s, init) && s.lock == Nobody && Step(s, a).Some?
    ensures Left(s) == 0 && Left(Step(s, a).value) <= 7
    ensures if a.Acquire? || a.TcpAcquire? then Moves(a) else !Moves(a) && Left(Step(s, a).value) == 0
  {
  }

  lemma StepWork(s: Sys, a: Action, init: CellArray)
    requires Inv(s, init) && Step(s, a).Some?
    ensures (if Moves(a) then 1 else 0) + Left(Step(s, a).value) <= Left(s) + 8 * |Turns([a])|
  {
    TurnsOfOne(a);
    if s.lock == Nobody {
      FreeStep(s, a, init);
    } else {
      StepsCountDown(s, a, init);
    }
  }

  /** Each turn with the mutex is worth at most eight moving steps, whatever is interleaved with them. */
  lemma {:induction false} WorkBounded(s: Sys, schedule: seq<Action>, init: CellArray)
    requires Inv(s, init) && Run(s, schedule).Some?
    ensures Moved(schedule) + Left(Run(s, schedule).value) <= Left(s) + 8 * |Turns(schedule)|
    decreases |schedule|
  {
    if schedule == [] {
    } else {
      var a, rest := schedule[0], schedule[1..];
      TurnsOfOne(a);
      assert Turns(schedule) == Turns([a]) + Turns(rest);
      StepWork(s, a, init);
      StepKeepsInv(s, a, init);
      WorkBounded(Step(s, a).value, rest, init);
    }
  }

  predicate NoRepeats(ts: seq<Owner>) {
    forall i, j :: 0 <= i < j < |ts| ==> ts[i] != ts[j]
  }

  function Parties(n: nat): set<Owner> {
    if n == 0 then {Tcp} else Parties(n - 1) + {Vcpu(n - 1)}
  }

  lemma {:induction false} PartiesExact(n: nat, o: Owner)
    ensures |Parties(n)| == n + 1 && (o in Parties(n) <==> o == Tcp || (o.Vcpu? && o.id < n))
  {
    if n == 0 {
    } else {
      PartiesExact(n - 1, o);
      PartiesExact(n - 1, Vcpu(n - 1));
    }
  }

  /** As many different owners as a set can hold. */
  lemma {:induction false} DistinctAtMost(ts: seq<Owner>, ps: set<Owner>)
    requires NoRepeats(ts) && forall i :: 0 <= i < |ts| ==> ts[i] in ps
    ensures |ts| <= |ps|
  {
    if ts == [] {
    } else {
      var n := |ts| - 1;
      DistinctAtMost(ts[..n], ps - {ts[n]});
    }
  }

  lemma {:induction false} TurnsAreParties(s: Sys, schedule: seq<Action>, i: nat)
    requires |s.mem| == MEM_BYTES && Run(s, schedule).Some? && i < |Turns(schedule)|
    ensures Turns(schedule)[i] in Parties(|s.vcpus|)
    decreases |schedule|
  {
    var a, rest := schedule[0], schedule[1..];
    StepKeepsSize(s, a);
    TurnsOfOne(a);
    assert Turns(schedule) == Turns([a]) + Turns(rest);
    if i < |Turns([a])| {
      PartiesExact(|s.vcpus|, Turns([a])[i]);
    } else {
      TurnsAreParties(Step(s, a).value, rest, i - |Turns([a])|);
    }
  }

  /** If the mutex is handed over first come, first served, nobody is given it twice while v waits. Then v waits
      for at most 7 + 8n moving steps, n being the number of vCPUs. */
  lemma FirstComeBound(s: Sys, schedule: seq<Action>, v: nat, more: seq<Action>)
    requires Started(s) && Run(s, schedule).Some? && v < |s.vcpus| && |Run(s, schedule).value.mem| == MEM_BYTES
    requires Run(Run(s, schedule).value, more).Some?
    requires NoRepeats(Turns(more)) && Vcpu(v) !in Turns(more)
    ensures Moved(more) <= 7 + 8 * |s.vcpus|
  {
    StartedInv(s);
    RunKeepsInv(s, schedule, Cells(s.mem));
    RunKeepsVcpus(s, schedule);
    var t := Run(s, schedule).value;
    if t.lock != Nobody { HolderCanMove(t, Cells(s.mem)); }
    WorkBounded(t, more, Cells(s.mem));
    OthersTurns(t, more, v);
  }

  lemma OthersTurns(t: Sys, more: seq<Action>, v: nat)
    requires |t.mem| == MEM_BYTES && Run(t, more).Some? && v < |t.vcpus|
    requires NoRepeats(Turns(more)) && Vcpu(v) !in Turns(more)
    ensures |Turns(more)| <= |t.vcpus|
  {
    PartiesExact(|t.vcpus|, Vcpu(v));
    forall i | 0 <= i < |Turns(more)|
      ensures Turns(more)[i] in Parties(|t.vcpus|) - {Vcpu(v)}
    {
      TurnsAreParties(t, more, i);
    }
    DistinctAtMost(Turns(more), Parties(|t.vcpus|) - {Vcpu(v)});
  }

  // ---------- and that some hand-over rule is needed ----------

  /** The mutex is free and v still waits for it. */
  predicate StillWaiting(s: Sys, v: nat, op: Access, init: CellArray) {
    Inv(s, init) && s.lock == Nobody && In(s, v) && s.vcpus[v] == Waiting(op)
  }

  lemma TakenByOther(s: Sys, u: nat, v: nat, op: Access, init: CellArray) returns (steps: seq<Action>)
    requires StillWaiting(s, v, op, init) && In(s, u) && u != v && s.vcpus[u].Waiting?
    ensures Run(s, steps).Some? && StillWaiting(Run(s, steps).value, v, op, init)
    ensures |Run(s, steps).value.log| == |s.log| + 1 && |Run(s, steps).value.vcpus| == |s.vcpus|
  {
    var a := Acquire(u);
    var t := Step(s, a).value;
    StepKeepsInv(s, a, init);
    var rest := Drain(t, v, init);
    steps := [a] + rest;
    RunStep(s, a, rest);
    RunKeepsVcpus(t, rest);
  }

  /** One more access by u, while v goes on waiting. */
  lemma OvertakenOnce(s: Sys, u: nat, v: nat, op: Access, init: CellArray) returns (steps: seq<Action>)
    requires StillWaiting(s, v, op, init) && In(s, u) && u != v
    ensures Run(s, steps).Some? && StillWaiting(Run(s, steps).value, v, op, init)
    ensures |Run(s, steps).value.log| == |s.log| + 1 && |Run(s, steps).value.vcpus| == |s.vcpus|
  {
    if s.vcpus[u].Waiting? {
      steps := TakenByOther(s, u, v, op, init);
    } else {
      var a := Issue(u, op);
      StepKeepsInv(s, a, init);
      var rest := TakenByOther(Step(s, a).value, u, v, op, init);
      steps := [a] + rest;
      RunStep(s, a, rest);
    }
  }

  lemma {:induction false} OvertakenOften(s: Sys, u: nat, v: nat, op: Access, n: nat, init: CellArray)
    returns (steps: seq<Action>)
    requires StillWaiting(s, v, op, init) && In(s, u) && u != v
    ensures Run(s, steps).Some? && StillWaiting(Run(s, steps).value, v, op, init)
    ensures |Run(s, steps).value.log| == |s.log| + n
    decreases n
  {
    if n == 0 {
      steps := [];
    } else {
      var first := OvertakenOnce(s, u, v, op, init);
      var rest := OvertakenOften(Run(s, first).value, u, v, op, n - 1, init);
      steps := first + rest;
      RunJoins(s, first, rest);
    }
  }

  /** Nothing in the link itself bounds the wait: with two vCPUs, v's access can be passed over by any number of
      accesses of the other, the mutex being free each time. */
  lemma PassedOver(s: Sys, u: nat, v: nat, op: Access, n: nat) returns (steps: seq<Action>)
    requires Started(s) && In(s, u) && In(s, v) && u != v && ValidAccess(op)
    ensures Run(s, steps).Some? && |Run(s, steps).value.log| == n
    ensures In(Run(s, steps).value, v) && Run(s, steps).value.vcpus[v] == Waiting(op)
  {
    var init, a := Cells(s.mem), Issue(v, op);
    StartedInv(s);
    StepKeepsInv(s, a, init);
    var rest := OvertakenOften(Step(s, a).value, u, v, op, n, init);
    steps := [a] + rest;
    RunStep(s, a, rest);
  }
}
