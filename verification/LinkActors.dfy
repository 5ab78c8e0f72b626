/** What each actor of the link does on its own account: the tcp thread polls once after every timed wait, both
    ends receive what the other sent, in order, and no actor is ever left without a step of its own. */
module LinkActors {
  import opened Vpipc
  import opened MemoryModel
  import opened CellModel
  import opened CosimLink
  import opened LinkInvariant

  // ---------- the tcp thread's loop ----------

  /** How often the thread waits, and how often it then calls vp_wait. */
  function Waits(schedule: seq<Action>): nat {
    if schedule == [] then 0 else (if schedule[0].TcpTimedWait? then 1 else 0) + Waits(schedule[1..])
  }

  function Polls(schedule: seq<Action>): nat {
    if schedule == [] then 0
    else (if schedule[0].TcpPollNothing? || schedule[0].TcpPollReady? then 1 else 0) + Polls(schedule[1..])
  }

  /** A poll is due between a wait and the poll that follows it. */
  function Due(t: TcpPhase): nat {
    if t.TimedWait? || t.Polling? then 1 else 0
  }

  /** Over every run, from any state, each timed wait is followed by exactly one poll. */
  lemma {:induction false} PollPerWait(s: Sys, schedule: seq<Action>)
    requires |s.mem| == MEM_BYTES && Run(s, schedule).Some?
    ensures Polls(schedule) + Due(Run(s, schedule).value.tcp) == Waits(schedule) + Due(s.tcp)
    decreases |schedule|
  {
    if schedule == [] {
    } else {
      StepKeepsSize(s, schedule[0]);
      PollPerWait(Step(s, schedule[0]).value, schedule[1..]);
    }
  }

  /** Once the mutex is free, a thread in its timed wait can go on, and then stands before the poll with the mutex. */
  lemma TcpWakes(s: Sys, schedule: seq<Action>) returns (a: Action)
    requires Started(s) && Run(s, schedule).Some?
    requires Run(s, schedule).value.lock == Nobody && Run(s, schedule).value.tcp.TimedWait?
    ensures |Run(s, schedule).value.mem| == MEM_BYTES && Step(Run(s, schedule).value, a).Some?
    ensures var t := Step(Run(s, schedule).value, a).value; t.tcp.Polling? && t.lock == Tcp
  {
    StartedInv(s);
    RunKeepsInv(s, schedule, Cells(s.mem));
    a := TcpAcquire;
  }

  /** The thread starts by taking the mutex, and then waits or leaves. */
  lemma TcpStarts(s: Sys)
    requires Started(s)
    ensures Run(s, [TcpAcquire, TcpTimedWait]).Some? && Run(s, [TcpAcquire, TcpExit]).Some?
    ensures Run(s, [TcpAcquire, TcpTimedWait]).value == s.(tcp := TimedWait)
    ensures Run(s, [TcpAcquire, TcpExit]).value == s.(tcp := Exited)
  {
    var t := Step(s, TcpAcquire).value;
    OneStep(s, TcpAcquire, [TcpTimedWait]);
    OneStep(s, TcpAcquire, [TcpExit]);
    OneStep(t, TcpTimedWait, []);
    OneStep(t, TcpExit, []);
  }

  lemma OneStep(s: Sys, a: Action, rest: seq<Action>)
    requires |s.mem| == MEM_BYTES && Step(s, a).Some?
    ensures |Step(s, a).value.mem| == MEM_BYTES && Run(s, [a] + rest) == Run(Step(s, a).value, rest)
  {
    StepKeepsSize(s, a);
    assert ([a] + rest)[1..] == rest;
  }

  /** A frame that did wait for the thread would be taken, the oldest first, and answered by one frame. */
  lemma TcpServes(s: Sys, answer: Frame)
    requires |s.mem| == MEM_BYTES && s.tcp == Polling && s.toServer != []
    ensures Run(s, [TcpPollReady, TcpTake, TcpReply(answer)]).Some?
    ensures Run(s, [TcpPollReady, TcpTake, TcpReply(answer)]).value
            == s.(tcp := Top, toServer := s.toServer[1..], toClient := s.toClient + [answer])
  {
    var t := Step(s, TcpPollReady).value;
    var u := Step(t, TcpTake).value;
    OneStep(s, TcpPollReady, [TcpTake, TcpReply(answer)]);
    OneStep(t, TcpTake, [TcpReply(answer)]);
    OneStep(u, TcpReply(answer), []);
    assert [TcpPollReady] + [TcpTake, TcpReply(answer)] == [TcpPollReady, TcpTake, TcpReply(answer)];
    assert [TcpTake] + [TcpReply(answer)] == [TcpTake, TcpReply(answer)];
  }

  // ---------- each queue is first in, first out ----------

  /** The frames a step sends to the client, and those the client takes. */
  function ToClient(s: Sys, a: Action): seq<Frame> {
    match a
    case SendRequest(v) =>
      if In(s, v) && s.vcpus[v].Locked? && ValidAccess(s.vcpus[v].op) then [Request(s.vcpus[v].op)] else []
    case TcpReply(answer) => [answer]
    case _ => []
  }

  function ByClient(t: Sys, a: Action): seq<Frame> {
    if a.ClientTake? && t.client.Serve? then [t.client.request] else []
  }

  /** The frames a step sends to QEMU, and those a vCPU or the tcp thread takes. */
  function ToServer(s: Sys, a: Action): seq<Frame> {
    if a.ClientSend? then [s.resp] else []
  }

  function ByServer(t: Sys, a: Action): seq<Frame> {
    match a
    case TakeResponse(v) => if In(t, v) && t.vcpus[v].Got? then [t.vcpus[v].answer] else []
    case TcpTake => if t.tcp.Replying? then [t.tcp.request] else []
    case _ => []
  }

  lemma StepQueues(s: Sys, a: Action)
    requires |s.mem| == MEM_BYTES && Step(s, a).Some?
    ensures var t := Step(s, a).value;
            && s.toClient + ToClient(s, a) == ByClient(t, a) + t.toClient
            && s.toServer + ToServer(s, a) == ByServer(t, a) + t.toServer
  {
    var t := Step(s, a).value;
    if a.ClientTake? {
      assert s.toClient == [s.toClient[0]] + s.toClient[1..];
    } else if a.TcpTake? || a.TakeResponse? {
      assert s.toServer == [s.toServer[0]] + s.toServer[1..];
    }
  }

  /** All frames sent in one direction over a run, and all frames received. */
  function SentToClient(s: Sys, schedule: seq<Action>): seq<Frame>
    requires |s.mem| == MEM_BYTES && Run(s, schedule).Some?
    decreases |schedule|
  {
    if schedule == [] then []
    else
      StepKeepsSize(s, schedule[0]);
      ToClient(s, schedule[0]) + SentToClient(Step(s, schedule[0]).value, schedule[1..])
  }

  function TakenByClient(s: Sys, schedule: seq<Action>): seq<Frame>
    requires |s.mem| == MEM_BYTES && Run(s, schedule).Some?
    decreases |schedule|
  {
    if schedule == [] then []
    else
      var t := Step(s, schedule[0]).value;
      StepKeepsSize(s, schedule[0]);
      ByClient(t, schedule[0]) + TakenByClient(t, schedule[1..])
  }

  function SentToServer(s: Sys, schedule: seq<Action>): seq<Frame>
    requires |s.mem| == MEM_BYTES && Run(s, schedule).Some?
    decreases |schedule|
  {
    if schedule == [] then []
    else
      StepKeepsSize(s, schedule[0]);
      ToServer(s, schedule[0]) + SentToServer(Step(s, schedule[0]).value, schedule[1..])
  }

  function TakenByServer(s: Sys, schedule: seq<Action>): seq<Frame>
    requires |s.mem| == MEM_BYTES && Run(s, schedule).Some?
    decreases |schedule|
  {
    if schedule == [] then []
    else
      var t := Step(s, schedule[0]).value;
      StepKeepsSize(s, schedule[0]);
      ByServer(t, schedule[0]) + TakenByServer(t, schedule[1..])
  }

  /** From q + put == take + mid and mid + rest == later + end. */
  lemma QueueChain(q: seq<Frame>, put: seq<Frame>, take: seq<Frame>, mid: seq<Frame>, rest: seq<Frame>,
                   later: seq<Frame>, end: seq<Frame>)
    requires q + put == take + mid && mid + rest == later + end
    ensures q + (put + rest) == (take + later) + end
  {
    assert q + (put + rest) == (q + put) + rest;
    assert (take + mid) + rest == take + (mid + rest);
  }

  /** Over every run, from any state, what is received in each direction, with what is still queued, is what was
      queued and sent, in the same order: nothing is lost, repeated or overtaken. */
  lemma {:induction false} FramesInOrder(s: Sys, schedule: seq<Action>)
    requires |s.mem| == MEM_BYTES && Run(s, schedule).Some?
    ensures var t := Run(s, schedule).value;
            && s.toClient + SentToClient(s, schedule) == TakenByClient(s, schedule) + t.toClient
            && s.toServer + SentToServer(s, schedule) == TakenByServer(s, schedule) + t.toServer
    decreases |schedule|
  {
    if schedule == [] {
    } else {
      var a, rest := schedule[0], schedule[1..];
      var t, u := Step(s, a).value, Run(s, schedule).value;
      StepKeepsSize(s, a);
      StepQueues(s, a);
      FramesInOrder(t, rest);
      QueueChain(s.toClient, ToClient(s, a), ByClient(t, a), t.toClient, SentToClient(t, rest), TakenByClient(t, rest),
                 u.toClient);
      QueueChain(s.toServer, ToServer(s, a), ByServer(t, a), t.toServer, SentToServer(t, rest), TakenByServer(t, rest),
                 u.toServer);
    }
  }

  // ---------- no actor is stuck ----------

  /** The client always has a step of its own, and with nothing to receive it polls without effect. */
  lemma ClientNeverStuck(s: Sys, schedule: seq<Action>) returns (a: Action)
    requires Started(s) && Run(s, schedule).Some?
    ensures a.ClientPollNothing? || a.ClientPollReady? || a.ClientTake? || a.ClientServe? || a.ClientSend?
    ensures |Run(s, schedule).value.mem| == MEM_BYTES && Step(Run(s, schedule).value, a).Some?
    ensures a.ClientPollNothing? ==> Step(Run(s, schedule).value, a).value == Run(s, schedule).value
  {
    StartedInv(s);
    RunKeepsInv(s, schedule, Cells(s.mem));
    a := ClientNext(Run(s, schedule).value, Cells(s.mem));
  }

  lemma ClientNext(t: Sys, init: CellArray) returns (a: Action)
    requires Inv(t, init)
    ensures a.ClientPollNothing? || a.ClientPollReady? || a.ClientTake? || a.ClientServe? || a.ClientSend?
    ensures Step(t, a).Some? && (a.ClientPollNothing? ==> Step(t, a).value == t)
  {
    ClientRuns(t, init);
    a := match t.client
         case Poll => if t.toClient == [] then ClientPollNothing else ClientPollReady
         case Receive => ClientTake
         case Serve(_) => ClientServe
         case _ => ClientSend;
  }

  /** The client never stops, and does not go to receive without a frame. */
  lemma ClientRuns(t: Sys, init: CellArray)
    requires Inv(t, init)
    ensures t.client != Stopped && (t.client == Receive ==> t.toClient != [])
  {
  }

  /** Unless it has left its loop, the tcp thread has a step of its own or waits for a mutex that is taken. */
  lemma TcpNeverStuck(s: Sys, schedule: seq<Action>) returns (a: Action)
    requires Started(s) && Run(s, schedule).Some? && !Run(s, schedule).value.tcp.Exited?
    ensures a.TcpAcquire? || a.TcpTimedWait? || a.TcpPollNothing?
    ensures |Run(s, schedule).value.mem| == MEM_BYTES
    ensures Step(Run(s, schedule).value, a).Some? <==> !(a.TcpAcquire? && Run(s, schedule).value.lock != Nobody)
  {
    StartedInv(s);
    RunKeepsInv(s, schedule, Cells(s.mem));
    a := TcpNext(Run(s, schedule).value, Cells(s.mem));
  }

  lemma TcpNext(t: Sys, init: CellArray) returns (a: Action)
    requires Inv(t, init) && !t.tcp.Exited?
    ensures a.TcpAcquire? || a.TcpTimedWait? || a.TcpPollNothing?
    ensures Step(t, a).Some? <==> !(a.TcpAcquire? && t.lock != Nobody)
  {
    a := if t.tcp.Top? then TcpTimedWait else if t.tcp.Polling? then TcpPollNothing else TcpAcquire;
  }

  /** A vCPU thread has a step of its own, or waits for a mutex that is taken, or for a response not yet sent. */
  lemma VcpuNeverStuck(s: Sys, schedule: seq<Action>, v: nat, op: Access) returns (a: Action)
    requires Started(s) && Run(s, schedule).Some? && In(Run(s, schedule).value, v) && ValidAccess(op)
    ensures a == Issue(v, op) || a == Acquire(v) || a == SendRequest(v) || a == TakeResponse(v) || a == Release(v)
    ensures |Run(s, schedule).value.mem| == MEM_BYTES
    ensures var t := Run(s, schedule).value;
            Step(t, a).Some?
            <==> !(t.vcpus[v].Waiting? && t.lock != Nobody) && !(t.vcpus[v].Sent? && t.toServer == [])
  {
    StartedInv(s);
    RunKeepsInv(s, schedule, Cells(s.mem));
    a := VcpuNext(Run(s, schedule).value, v, op, Cells(s.mem));
  }

  lemma VcpuNext(t: Sys, v: nat, op: Access, init: CellArray) returns (a: Action)
    requires Inv(t, init) && In(t, v) && ValidAccess(op)
    ensures a == Issue(v, op) || a == Acquire(v) || a == SendRequest(v) || a == TakeResponse(v) || a == Release(v)
    ensures Step(t, a).Some?
            <==> !(t.vcpus[v].Waiting? && t.lock != Nobody) && !(t.vcpus[v].Sent? && t.toServer == [])
  {
    a := match t.vcpus[v]
         case Idle => Issue(v, op)
         case Waiting(_) => Acquire(v)
         case Locked(_) => SendRequest(v)
         case Sent(_) => TakeResponse(v)
         case Got(_, _) => Release(v);
  }

  // ---------- what the handler would report ----------

  /** Any answer but the right response with status 0 would be reported, and a read passes its data on unchanged. */
  lemma OthersReported(v: nat, op: Access, f: Frame)
    ensures Finished(v, op, f).mismatch <==> f.word != 0 || f.typ != (if op.isWrite then 3 else 4)
    ensures !op.isWrite ==> Finished(v, op, f).value == f.data
    ensures Finished(v, op, f).vcpu == v && Finished(v, op, f).op == op
  {
  }
}
