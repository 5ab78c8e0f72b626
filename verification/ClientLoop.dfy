/** The SystemC client thread: descriptor lifecycle and the frames it sends, over a whole run of the
    poll loop. What the operating system returns at each poll is an input. */
module ClientLoop {
  import opened Words
  import opened Vpipc
  import opened MemoryModel
  import opened QemuCpuModel
  import opened CellModel

  const NO_FD := -1

  // ---------- descriptor traces ----------

  datatype FdOp = Open(fd: int) | Use(fd: int) | Close(fd: int)

  /** The descriptors still open after a trace. */
  function OpenAfter(ops: seq<FdOp>): set<int> {
    if ops == [] then {}
    else
      var before, op := OpenAfter(ops[..|ops| - 1]), ops[|ops| - 1];
      match op
      case Open(fd) => before + {fd}
      case Use(_) => before
      case Close(fd) => before - {fd}
  }

  /** Nothing is opened twice over, and nothing is used or closed unless it is open at that point. */
  predicate Disciplined(ops: seq<FdOp>) {
    ops == [] ||
    var front, op := ops[..|ops| - 1], ops[|ops| - 1];
    Disciplined(front) && (op.fd in OpenAfter(front) <==> !op.Open?)
  }

  function Opened(ops: seq<FdOp>): seq<int> {
    if ops == [] then []
    else Opened(ops[..|ops| - 1]) + if ops[|ops| - 1].Open? then [ops[|ops| - 1].fd] else []
  }

  function Closed(ops: seq<FdOp>): seq<int> {
    if ops == [] then []
    else Closed(ops[..|ops| - 1]) + if ops[|ops| - 1].Close? then [ops[|ops| - 1].fd] else []
  }

  /** In a disciplined trace the closes are the opens less what is still open, counted with repeats. */
  lemma {:induction false} ClosesMatchOpens(ops: seq<FdOp>)
    requires Disciplined(ops)
    ensures multiset(Opened(ops)) == multiset(Closed(ops)) + multiset(OpenAfter(ops))
  {
    if ops == [] {
    } else {
      var front, op := ops[..|ops| - 1], ops[|ops| - 1];
      ClosesMatchOpens(front);
    }
  }

  /** Once everything is closed, each descriptor was closed exactly as often as it was opened. */
  lemma ClosedExactlyOnce(ops: seq<FdOp>)
    requires Disciplined(ops) && OpenAfter(ops) == {}
    ensures multiset(Closed(ops)) == multiset(Opened(ops))
  {
    ClosesMatchOpens(ops);
    assert multiset(OpenAfter(ops)) == multiset{};
  }

  // ---------- polls ----------

  /** What one epoll_wait and, if something was ready, one recv give. */
  datatype PollResult = NothingReady | Ready(fd: int, valread: int, frame: Frame)

  datatype Ending = LeftLoop | Exited | StillPolling

  predicate Disconnects(p: PollResult, sockFd: int) {
    p.Ready? && p.fd == sockFd && p.valread == 0
  }

  predicate Fatal(p: PollResult, sockFd: int) {
    p.Ready? && (p.fd != sockFd || p.valread < 0)
  }

  predicate Delivers(p: PollResult, sockFd: int) {
    p.Ready? && p.fd == sockFd && p.valread == FRAME_BYTES
  }

  /** The request delivered is one the target refuses, which ends the simulation. */
  predicate Refused(mem: seq<byte>, resp: Frame, p: PollResult, sockFd: int)
    requires |mem| == MEM_BYTES
  {
    Delivers(p, sockFd) && Handle(mem, resp, p.frame).TlmError?
  }

  predicate Continues(p: PollResult, sockFd: int) {
    !Disconnects(p, sockFd) && !Fatal(p, sockFd)
  }

  // ---------- answers ----------

  /** Memory, response record and sent frames after answering the polls; `ok` is false once a TLM error
      was reported. */
  datatype Served = Served(mem: seq<byte>, resp: Frame, sent: seq<Frame>, ok: bool)

  function ServeOne(r: Served, p: PollResult, sockFd: int): (t: Served)
    requires |r.mem| == MEM_BYTES
    ensures |t.mem| == MEM_BYTES
  {
    if !r.ok || !Delivers(p, sockFd) then r
    else
      var o := Handle(r.mem, r.resp, p.frame);
      Served(o.mem, o.resp, if o.Replied? then r.sent + [o.resp] else r.sent, o.Replied?)
  }

  function ServeAll(mem: seq<byte>, resp: Frame, polls: seq<PollResult>, sockFd: int): (r: Served)
    requires |mem| == MEM_BYTES
    ensures |r.mem| == MEM_BYTES
  {
    if polls == [] then Served(mem, resp, [], true)
    else ServeOne(ServeAll(mem, resp, polls[..|polls| - 1], sockFd), polls[|polls| - 1], sockFd)
  }

  /** Serving one poll: a delivered request that is answered adds its answer, the record, to what was sent; a
      refused one ends the service; any other poll changes nothing. */
  lemma ServeOneExact(r: Served, p: PollResult, sockFd: int)
    requires |r.mem| == MEM_BYTES && r.ok
    ensures var t, o := ServeOne(r, p, sockFd), Handle(r.mem, r.resp, if p.Ready? then p.frame else r.resp);
            if p.Ready? && p.fd == sockFd && p.valread == 32
            then t.mem == o.mem && t.resp == o.resp && t.ok == o.Replied?
                 && t.sent == r.sent + (if o.Replied? then [o.resp] else [])
            else t == r
  {
  }

  lemma ServeAllStep(mem: seq<byte>, resp: Frame, polls: seq<PollResult>, n: nat, sockFd: int)
    requires |mem| == MEM_BYTES && n < |polls|
    ensures ServeAll(mem, resp, polls[..n + 1], sockFd)
            == ServeOne(ServeAll(mem, resp, polls[..n], sockFd), polls[n], sockFd)
  {
    assert polls[..n + 1][..n] == polls[..n];
  }

  /** A poll after which the loop goes round again with nothing to serve. */
  predicate Quiet(p: PollResult, sockFd: int) {
    Continues(p, sockFd) && !Delivers(p, sockFd)
  }

  /** The polls deliver the requests of exactly these accesses, in order, with any quiet polls between. */
  predicate Carries(polls: seq<PollResult>, sockFd: int, ops: seq<Access>) {
    if polls == [] then ops == []
    else
      var front, p := polls[..|polls| - 1], polls[|polls| - 1];
      if Quiet(p, sockFd) then Carries(front, sockFd, ops)
      else
        ops != [] &&
        var op := ops[|ops| - 1];
        ValidAccess(op) && p == Ready(sockFd, FRAME_BYTES, Request(op)) && Carries(front, sockFd, ops[..|ops| - 1])
  }

  /** The accesses so far are answered, and the memory is what they leave. */
  predicate Caught(r: Served, ops: seq<Access>, init: CellArray)
    requires |r.mem| == MEM_BYTES
  {
    r.ok && AllValid(ops) && AllAnswered(r.sent, ops, init) && Cells(r.mem) == ApplyAll(init, ops)
  }

  lemma OneAnswered(r: Served, ops: seq<Access>, init: CellArray, op: Access, sockFd: int)
    requires |r.mem| == MEM_BYTES && Caught(r, ops, init) && ValidAccess(op)
    ensures Caught(ServeOne(r, Ready(sockFd, FRAME_BYTES, Request(op)), sockFd), ops + [op], init)
  {
    HandleApplies(r.mem, r.resp, op);
    AllAnsweredGrows(r.sent, ops, init, Handle(r.mem, r.resp, Request(op)).resp, op);
  }

  /** However many quiet polls come between, a stream of forwarded accesses is answered frame for frame, in
      order, as a sequential run on the 32-bit cells. */
  lemma {:induction false} ForwardedAllAnswered(mem: seq<byte>, resp: Frame, polls: seq<PollResult>, sockFd: int,
                                                ops: seq<Access>)
    requires |mem| == MEM_BYTES && Carries(polls, sockFd, ops)
    ensures Caught(ServeAll(mem, resp, polls, sockFd), ops, Cells(mem))
  {
    if polls == [] {
    } else {
      var front, p := polls[..|polls| - 1], polls[|polls| - 1];
      if Quiet(p, sockFd) {
        ForwardedAllAnswered(mem, resp, front, sockFd, ops);
      } else {
        var n := |ops| - 1;
        ForwardedAllAnswered(mem, resp, front, sockFd, ops[..n]);
        OneAnswered(ServeAll(mem, resp, front, sockFd), ops[..n], Cells(mem), ops[n], sockFd);
        assert ops[..n] + [ops[n]] == ops;
      }
    }
  }

  /** Every poll but the last goes on, every request but the last is served, and the last one is fatal or
      refused. */
  predicate Quits(mem: seq<byte>, resp: Frame, polls: seq<PollResult>, sockFd: int)
    requires |mem| == MEM_BYTES
  {
    && polls != []
    && var n := |polls| - 1;
       var r := ServeAll(mem, resp, polls[..n], sockFd);
       && (forall i :: 0 <= i < n ==> Continues(polls[i], sockFd))
       && r.ok && (Fatal(polls[n], sockFd) || Refused(r.mem, r.resp, polls[n], sockFd))
  }

  class Client {
    const cpu: QemuCpu
    var epollFd: int
    var sockFd: int
    var serverFd: int
    var ops: seq<FdOp>
    var sent: seq<Frame>

    ghost predicate Valid()
      reads this, cpu, cpu.memory
    {
      cpu.Valid()
    }

    /** The trace is disciplined and exactly the recorded descriptors are open. */
    ghost predicate Owns()
      reads this
    {
      && Disciplined(ops)
      && (sockFd != NO_FD ==> sockFd != epollFd)
      && (serverFd != NO_FD ==> serverFd != epollFd && serverFd != sockFd)
      && OpenAfter(ops) == {epollFd} + (if sockFd != NO_FD then {sockFd} else {})
                           + (if serverFd != NO_FD then {serverFd} else {})
    }

    ghost predicate Connected()
      reads this
    {
      Owns() && sockFd != NO_FD && serverFd == NO_FD
    }

    constructor (cpu: QemuCpu)
      requires cpu.Valid()
      ensures Valid() && this.cpu == cpu && ops == [] && sent == []
    {
      this.cpu := cpu;
      epollFd, sockFd, serverFd := NO_FD, NO_FD, NO_FD;
      ops, sent := [], [];
    }

    method Perform(op: FdOp)
      requires Disciplined(ops) && (op.fd in OpenAfter(ops) <==> !op.Open?)
      modifies this`ops
      ensures ops == old(ops) + [op] && Disciplined(ops)
      ensures OpenAfter(ops) == match op
                                case Open(fd) => old(OpenAfter(ops)) + {fd}
                                case Use(_) => old(OpenAfter(ops))
                                case Close(fd) => old(OpenAfter(ops)) - {fd}
      ensures Opened(ops) == old(Opened(ops)) + if op.Open? then [op.fd] else []
    {
      ghost var before := ops;
      ops := ops + [op];
      assert ops[..|before|] == before;
    }

    /** `epoll` and `sock` are what epoll_create1 and socket return: two descriptors not yet in use. */
    method CreateVpModule(epoll: int, sock: int)
      requires ops == [] && 0 <= epoll && 0 <= sock && epoll != sock
      modifies this`epollFd, this`sockFd, this`serverFd, this`ops
      ensures Connected() && epollFd == epoll && sockFd == sock && Opened(ops) == [epoll, sock]
      ensures ops == [Open(epoll), Open(sock), Use(epoll)]
    {
      assert OpenAfter(ops) == {} && Opened(ops) == [];
      epollFd := epoll;
      Perform(Open(epoll));
      assert OpenAfter(ops) == {epoll} && Opened(ops) == [epoll];
      serverFd := NO_FD;
      sockFd := sock;
      Perform(Open(sock));
      assert OpenAfter(ops) == {epoll} + {sock} && Opened(ops) == [epoll, sock];
      Perform(Use(epoll)); // epoll_ctl
    }

    /** The client branch of vp_wait. */
    method VpWait(p: PollResult) returns (exited: bool, count: nat)
      requires Connected()
      modifies this`sockFd, this`ops
      ensures Disciplined(ops) && Opened(ops) == old(Opened(ops))
      ensures exited == Fatal(p, old(sockFd)) == (p.Ready? && (p.fd != old(sockFd) || p.valread < 0))
      ensures count == if Delivers(p, old(sockFd)) then 1 else 0
      ensures Delivers(p, old(sockFd)) <==> p.Ready? && p.fd == old(sockFd) && p.valread == 32
      ensures Disconnects(p, old(sockFd)) <==> p.Ready? && p.fd == old(sockFd) && p.valread == 0
      ensures ops == old(ops) + [Use(epollFd)]
                     + (if p.Ready? && p.fd == old(sockFd) then [Use(old(sockFd))] else [])
                     + (if p.Ready? && p.fd == old(sockFd) && p.valread <= 0 then [Close(old(sockFd))] else [])
      ensures Continues(p, old(sockFd)) ==> Connected() && sockFd == old(sockFd)
      ensures Disconnects(p, old(sockFd)) ==> Owns() && sockFd == NO_FD
    {
      exited, count := false, 0;
      Perform(Use(epollFd));
      if p.Ready? {
        if p.fd != sockFd {
          exited := true;
          return;
        }
        Perform(Use(sockFd));
        if p.valread < 0 {
          Perform(Close(sockFd));
          exited := true;
        } else if p.valread == 0 {
          Perform(Close(sockFd));
          sockFd := NO_FD;
        } else if p.valread == FRAME_BYTES {
          count := 1;
        }
      }
    }

    method CleanupVpModule()
      requires Owns()
      modifies this`ops
      ensures Disciplined(ops) && OpenAfter(ops) == {} && Opened(ops) == old(Opened(ops))
      ensures ops == old(ops) + (if sockFd != -1 then [Close(sockFd)] else [])
                     + (if serverFd != -1 then [Close(serverFd)] else []) + [Close(epollFd)]
    {
      if sockFd != NO_FD {
        Perform(Close(sockFd));
      }
      if serverFd != NO_FD {
        Perform(Close(serverFd));
      }
      Perform(Close(epollFd));
    }

    /** One pass of the poll loop up to the liveness check. */
    method Turn(p: PollResult) returns (exited: bool)
      requires Valid() && Connected()
      modifies this`sockFd, this`ops, this`sent, cpu`resp, cpu.memory.mem
      ensures Disciplined(ops) && Opened(ops) == old(Opened(ops))
      ensures exited
              <==> Fatal(p, old(sockFd)) || Refused(old(cpu.memory.mem[..]), old(cpu.resp), p, old(sockFd))
      ensures Served(cpu.memory.mem[..], cpu.resp, sent,
                     !Refused(old(cpu.memory.mem[..]), old(cpu.resp), p, old(sockFd)))
              == ServeOne(Served(old(cpu.memory.mem[..]), old(cpu.resp), old(sent), true), p, old(sockFd))
      ensures !exited && Continues(p, old(sockFd)) ==> Connected() && sockFd == old(sockFd)
      ensures !exited && !Continues(p, old(sockFd)) ==> Owns() && sockFd == NO_FD && Disconnects(p, old(sockFd))
    {
      var count;
      exited, count := VpWait(p);
      if !exited && count > 0 {
        var answered := cpu.Answer(p.frame);
        if answered {
          Perform(Use(sockFd)); // vp_nb_response
          sent := sent + [cpu.resp];
        }
        exited := !answered;
      }
    }

    /** What the thread has sent and holds is what answering these polls gives. */
    ghost predicate Tracks(mem: seq<byte>, resp: Frame, polls: seq<PollResult>, sock: int)
      reads this, cpu, cpu.memory, cpu.memory.mem
      requires |mem| == MEM_BYTES
    {
      var r := ServeAll(mem, resp, polls, sock);
      sent == r.sent && cpu.memory.mem[..] == r.mem && cpu.resp == r.resp
    }

    /** The poll loop of thread_process: until the first disconnect, or an error exit. */
    method PollLoop(polls: seq<PollResult>) returns (end: Ending, used: nat)
      requires Valid() && Connected() && sent == []
      modifies this`sockFd, this`ops, this`sent, cpu`resp, cpu.memory.mem
      ensures Disciplined(ops) && Opened(ops) == old(Opened(ops))
      ensures end == LeftLoop ==> Owns() && sockFd == NO_FD
      ensures end == LeftLoop ==> 0 < used <= |polls| && Disconnects(polls[used - 1], old(sockFd))
                                  && forall i :: 0 <= i < used - 1 ==> Continues(polls[i], old(sockFd))
      ensures end == StillPolling
              ==> used == |polls| && forall i :: 0 <= i < |polls| ==> Continues(polls[i], old(sockFd))
      ensures used <= |polls|
      ensures end == Exited ==> Quits(old(cpu.memory.mem[..]), old(cpu.resp), polls[..used], old(sockFd))
      ensures end != Exited ==> ServeAll(old(cpu.memory.mem[..]), old(cpu.resp), polls[..used], old(sockFd)).ok
      ensures Tracks(old(cpu.memory.mem[..]), old(cpu.resp), polls[..used], old(sockFd))
    {
      used := 0;
      ghost var mem0, resp0, sock := cpu.memory.mem[..], cpu.resp, sockFd;
      while used < |polls|
        invariant 0 <= used <= |polls| && Valid()
        invariant Connected() && sockFd == sock && Opened(ops) == old(Opened(ops))
        invariant forall i :: 0 <= i < used ==> Continues(polls[i], sock)
        invariant Tracks(mem0, resp0, polls[..used], sock) && ServeAll(mem0, resp0, polls[..used], sock).ok
      {
        ServeAllStep(mem0, resp0, polls, used, sock);
        var exited := Turn(polls[used]);
        used := used + 1;
        if exited {
          assert polls[..used][..used - 1] == polls[..used - 1];
          return Exited, used;
        }
        if sockFd == NO_FD {
          return LeftLoop, used;
        }
      }
      end := StillPolling;
    }

    /** The whole thread. It leaves the loop normally at the first disconnect, and then both descriptors
        it opened have been closed, once each; no trace ever touches a closed descriptor. */
    method ThreadProcess(epoll: int, sock: int, polls: seq<PollResult>) returns (end: Ending, used: nat)
      requires Valid() && ops == [] && sent == [] && 0 <= epoll && 0 <= sock && epoll != sock
      modifies this`epollFd, this`sockFd, this`serverFd, this`ops, this`sent, cpu`resp, cpu.memory.mem
      ensures Disciplined(ops) && Opened(ops) == [epoll, sock]
      ensures end == LeftLoop ==> OpenAfter(ops) == {} && multiset(Closed(ops)) == multiset{epoll, sock}
      ensures end == LeftLoop ==> 0 < used <= |polls| && Disconnects(polls[used - 1], sock)
                                  && forall i :: 0 <= i < used - 1 ==> Continues(polls[i], sock)
      ensures end == StillPolling ==> used == |polls| && forall i :: 0 <= i < |polls| ==> Continues(polls[i], sock)
      ensures used <= |polls|
      ensures end == Exited ==> Quits(old(cpu.memory.mem[..]), old(cpu.resp), polls[..used], sock)
      ensures end != Exited ==> ServeAll(old(cpu.memory.mem[..]), old(cpu.resp), polls[..used], sock).ok
      ensures Tracks(old(cpu.memory.mem[..]), old(cpu.resp), polls[..used], sock)
    {
      CreateVpModule(epoll, sock);
      end, used := PollLoop(polls);
      if end == LeftLoop {
        CleanupVpModule();
        ClosedExactlyOnce(ops);
      }
    }
  }
}
