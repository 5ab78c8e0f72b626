/** The running link as a step machine: any number of vCPU threads, the tcp thread, and the SystemC
    client, sharing one mutex (on the QEMU side) and one first-in-first-out queue per direction. */
module CosimLink {
  import opened Options
  import opened Words
  import opened Vpipc
  import opened MemoryModel
  import opened QemuCpuModel
  import opened CellModel

  // ---------- completed accesses ----------

  /** A completed access: who made it, what it returned, whether the handler printed its error line. */
  datatype Done = Done(vcpu: nat, op: Access, value: uint64, mismatch: bool)

  predicate ValidLog(log: seq<Done>) {
    forall i :: 0 <= i < |log| ==> ValidAccess(log[i].op)
  }

  function Replay(init: CellArray, log: seq<Done>): CellArray
    requires ValidLog(log)
  {
    if log == [] then init else Apply(Replay(init, log[..|log| - 1]), log[|log| - 1].op)
  }

  // ---------- the distributed state ----------

  /** Where a vCPU thread stands inside mmio_bus_read or mmio_bus_write. */
  datatype VPhase =
    | Idle
    | Waiting(op: Access)            // request built, blocked on the mutex
    | Locked(op: Access)             // holds the mutex, frame not sent
    | Sent(op: Access)               // inside vp_b_transfer, blocked in recv
    | Got(op: Access, answer: Frame) // frame received, mutex not yet released

  datatype TcpPhase =
    | Starting                       // thread created, mutex not yet taken
    | Top                            // holds the mutex, about to test thread_running
    | TimedWait                      // inside qemu_cond_timedwait, mutex released
    | Polling                        // holds the mutex, about to epoll_wait
    | Receiving                      // holds the mutex, epoll reported the socket, about to recv
    | Replying(request: Frame)       // holds the mutex, a frame was taken; any answer may follow
    | Exited

  datatype ClientPhase =
    | Poll                           // about to epoll_wait
    | Receive                        // epoll reported the socket, about to recv
    | Serve(request: Frame)
    | Respond                        // response record filled, about to send
    | Stopped                        // TLM error report

  datatype Owner = Nobody | Tcp | Vcpu(id: nat)

  datatype Sys = Sys(
    vcpus: seq<VPhase>,
    lock: Owner,
    tcp: TcpPhase,
    client: ClientPhase,
    resp: Frame,                     // the client's reused response record
    mem: seq<byte>,
    toClient: seq<Frame>,
    toServer: seq<Frame>,
    log: seq<Done>)

  datatype Action =
    | Issue(v: nat, op: Access)
    | Acquire(v: nat)
    | SendRequest(v: nat)
    | TakeResponse(v: nat)
    | Release(v: nat)
    | TcpAcquire
    | TcpTimedWait
    | TcpExit
    | TcpPollNothing
    | TcpPollReady
    | TcpTake
    | TcpReply(answer: Frame)
    | ClientPollNothing
    | ClientPollReady
    | ClientTake
    | ClientServe
    | ClientSend

  predicate Started(s: Sys) {
    && |s.mem| == MEM_BYTES
    && (forall v :: 0 <= v < |s.vcpus| ==> s.vcpus[v] == Idle)
    && s.lock == Nobody && s.tcp == Starting && s.client == Poll
    && s.toClient == [] && s.toServer == [] && s.log == []
  }

  predicate In(s: Sys, v: nat) {
    v < |s.vcpus|
  }

  /** What the handler returns to the guest once it has unlocked, and whether it reports an error. */
  function Finished(v: nat, op: Access, answer: Frame): Done {
    Done(v, op, if op.isWrite then 0 else answer.data,
         answer.typ != ResponseType(op) || answer.word != VP_OK)
  }

  /** One atomic step of the actor that `a` names; None when that step is not possible now. */
  function Step(s: Sys, a: Action): Option<Sys>
    requires |s.mem| == MEM_BYTES
  {
    match a
    case Issue(v, op) =>
      if In(s, v) && s.vcpus[v] == Idle && ValidAccess(op)
      then Some(s.(vcpus := s.vcpus[v := Waiting(op)])) else None
    case Acquire(v) =>
      if In(s, v) && s.vcpus[v].Waiting? && s.lock == Nobody
      then Some(s.(vcpus := s.vcpus[v := Locked(s.vcpus[v].op)], lock := Vcpu(v))) else None
    case SendRequest(v) =>
      if In(s, v) && s.vcpus[v].Locked? && ValidAccess(s.vcpus[v].op)
      then Some(s.(vcpus := s.vcpus[v := Sent(s.vcpus[v].op)],
                   toClient := s.toClient + [Request(s.vcpus[v].op)])) else None
    case TakeResponse(v) =>
      if In(s, v) && s.vcpus[v].Sent? && s.toServer != []
      then Some(s.(vcpus := s.vcpus[v := Got(s.vcpus[v].op, s.toServer[0])],
                   toServer := s.toServer[1..])) else None
    case Release(v) =>
      if In(s, v) && s.vcpus[v].Got?
      then Some(s.(vcpus := s.vcpus[v := Idle], lock := Nobody,
                   log := s.log + [Finished(v, s.vcpus[v].op, s.vcpus[v].answer)])) else None
    case TcpAcquire =>
      if s.lock == Nobody && s.tcp == Starting then Some(s.(tcp := Top, lock := Tcp))
      else if s.lock == Nobody && s.tcp == TimedWait then Some(s.(tcp := Polling, lock := Tcp))
      else None
    case TcpTimedWait =>
      if s.tcp == Top then Some(s.(tcp := TimedWait, lock := Nobody)) else None
    case TcpExit =>
      if s.tcp == Top then Some(s.(tcp := Exited, lock := Nobody)) else None
    case TcpPollNothing => // edge-triggered: possible whether or not a frame is queued
      if s.tcp == Polling then Some(s.(tcp := Top)) else None
    case TcpPollReady =>
      if s.tcp == Polling && s.toServer != [] then Some(s.(tcp := Receiving)) else None
    case TcpTake =>
      if s.tcp == Receiving && s.toServer != []
      then Some(s.(tcp := Replying(s.toServer[0]), toServer := s.toServer[1..])) else None
    case TcpReply(answer) =>
      if s.tcp.Replying? then Some(s.(tcp := Top, toClient := s.toClient + [answer])) else None
    case ClientPollNothing => // level-triggered: only when nothing is readable
      if s.client == Poll && s.toClient == [] then Some(s) else None
    case ClientPollReady =>
      if s.client == Poll && s.toClient != [] then Some(s.(client := Receive)) else None
    case ClientTake =>
      if s.client == Receive && s.toClient != []
      then Some(s.(client := Serve(s.toClient[0]), toClient := s.toClient[1..])) else None
    case ClientServe =>
      if s.client.Serve? then
        var o := Handle(s.mem, s.resp, s.client.request);
        Some(s.(client := if o.Replied? then Respond else Stopped, mem := o.mem, resp := o.resp))
      else None
    case ClientSend =>
      if s.client == Respond then Some(s.(client := Poll, toServer := s.toServer + [s.resp])) else None
  }

  lemma StepKeepsSize(s: Sys, a: Action)
    requires |s.mem| == MEM_BYTES && Step(s, a).Some?
    ensures |Step(s, a).value.mem| == MEM_BYTES && |Step(s, a).value.vcpus| == |s.vcpus|
  {
  }

  /** The state after a schedule, if every step of the schedule was possible. */
  function Run(s: Sys, schedule: seq<Action>): Option<Sys>
    requires |s.mem| == MEM_BYTES
    decreases |schedule|
  {
    if schedule == [] then Some(s)
    else
      var t := Step(s, schedule[0]);
      if t.None? then None
      else
        StepKeepsSize(s, schedule[0]);
        Run(t.value, schedule[1..])
  }
}
