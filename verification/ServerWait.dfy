/** The server branch of vp_wait: one batch of epoll events turned into transfers for the caller's buffer. */
module ServerWait {
  import opened Vpipc

  const MAX_EVENTS := 10
  const CALLER_BUFFER := 3
  const NOT_CONNECTED := -1

  /** A ready descriptor with what accept (on the listening socket) or recv (on a client) then returns. */
  datatype Event = Event(fd: int, accepted: int, valread: int, frame: Frame)

  datatype Transfer = Transfer(sockFd: int, data: Frame)

  /** A failed recv ends the process; so does adding a failed accept's descriptor to the epoll set. */
  predicate Fails(e: Event, serverFd: int) {
    if e.fd == serverFd then e.accepted < 0 else e.valread < 0
  }

  predicate AnyFails(events: seq<Event>, serverFd: int) {
    exists i :: 0 <= i < |events| && Fails(events[i], serverFd)
  }

  predicate FullFrame(e: Event, serverFd: int) {
    e.fd != serverFd && e.valread == FRAME_BYTES
  }

  predicate Hangup(e: Event, serverFd: int) {
    e.fd != serverFd && e.valread == 0
  }

  function Collected(events: seq<Event>, serverFd: int): seq<Transfer> {
    if events == [] then []
    else
      var e := events[|events| - 1];
      Collected(events[..|events| - 1], serverFd)
      + if FullFrame(e, serverFd) then [Transfer(e.fd, e.frame)] else []
  }

  function Connection(sockFd: int, events: seq<Event>, serverFd: int): int {
    if events == [] then sockFd
    else
      var e := events[|events| - 1];
      if e.fd == serverFd then e.accepted else Connection(sockFd, events[..|events| - 1], serverFd)
  }

  function HungUp(events: seq<Event>, serverFd: int): seq<int> {
    if events == [] then []
    else
      var e := events[|events| - 1];
      HungUp(events[..|events| - 1], serverFd) + if Hangup(e, serverFd) then [e.fd] else []
  }

  // ---------- what the collected transfers are ----------

  /** Where the client events are whose recv returned v. */
  function Positions(events: seq<Event>, serverFd: int, v: int): seq<nat> {
    if events == [] then []
    else
      var n := |events| - 1;
      Positions(events[..n], serverFd, v)
      + if events[n].fd != serverFd && events[n].valread == v then [n] else []
  }

  lemma {:induction false} PositionsBelow(events: seq<Event>, serverFd: int, v: int, j: nat)
    requires j < |Positions(events, serverFd, v)|
    ensures Positions(events, serverFd, v)[j] < |events|
  {
    var front := Positions(events[..|events| - 1], serverFd, v);
    if j == |front| {
    } else {
      PositionsBelow(events[..|events| - 1], serverFd, v, j);
    }
  }

  lemma {:induction false} PositionsAscend(events: seq<Event>, serverFd: int, v: int, j: nat, k: nat)
    requires j < k < |Positions(events, serverFd, v)|
    ensures Positions(events, serverFd, v)[j] < Positions(events, serverFd, v)[k]
  {
    var front := Positions(events[..|events| - 1], serverFd, v);
    if k < |front| {
      PositionsAscend(events[..|events| - 1], serverFd, v, j, k);
    } else {
      PositionsBelow(events[..|events| - 1], serverFd, v, j);
    }
  }

  lemma {:induction false} PositionsExact(events: seq<Event>, serverFd: int, v: int, i: nat)
    ensures i in Positions(events, serverFd, v)
            <==> i < |events| && events[i].fd != serverFd && events[i].valread == v
  {
    if events == [] {
    } else {
      PositionsExact(events[..|events| - 1], serverFd, v, i);
    }
  }

  /** The transfers are exactly the client events of 32 bytes, in event order, each with its own descriptor. */
  lemma {:induction false} CollectedExactly(events: seq<Event>, serverFd: int)
    ensures var at, ts := Positions(events, serverFd, 32), Collected(events, serverFd);
            |at| == |ts| && forall j :: 0 <= j < |at| ==>
                              at[j] < |events| && ts[j] == Transfer(events[at[j]].fd, events[at[j]].frame)
  {
    if events == [] {
    } else {
      CollectedExactly(events[..|events| - 1], serverFd);
    }
  }

  /** The closed descriptors are those of exactly the zero-length client events, in event order. */
  lemma {:induction false} HungUpExactly(events: seq<Event>, serverFd: int)
    ensures var at, fds := Positions(events, serverFd, 0), HungUp(events, serverFd);
            |at| == |fds| && forall j :: 0 <= j < |at| ==> at[j] < |events| && fds[j] == events[at[j]].fd
  {
    if events == [] {
    } else {
      HungUpExactly(events[..|events| - 1], serverFd);
    }
  }

  // ---------- the connection ----------

  /** The connection is what accept returned for the last event on the listening descriptor. */
  lemma {:induction false} ConnectionIsLast(sockFd: int, events: seq<Event>, serverFd: int, i: nat)
    requires i < |events| && events[i].fd == serverFd
    requires forall j :: i < j < |events| ==> events[j].fd != serverFd
    ensures Connection(sockFd, events, serverFd) == events[i].accepted
  {
    if i == |events| - 1 {
    } else {
      ConnectionIsLast(sockFd, events[..|events| - 1], serverFd, i);
    }
  }

  /** Without such an event it stays what it was. */
  lemma {:induction false} ConnectionKept(sockFd: int, events: seq<Event>, serverFd: int)
    requires forall j :: 0 <= j < |events| ==> events[j].fd != serverFd
    ensures Connection(sockFd, events, serverFd) == sockFd
  {
    if events == [] {
    } else {
      ConnectionKept(sockFd, events[..|events| - 1], serverFd);
    }
  }

  // ---------- how many there can be ----------

  /** A batch epoll can report: at most MAX_EVENTS entries, distinct descriptors, clients all open. */
  ghost predicate Reportable(events: seq<Event>, serverFd: int, clients: set<int>) {
    && |events| <= MAX_EVENTS
    && (forall i, j :: 0 <= i < j < |events| ==> events[i].fd != events[j].fd)
    && (forall i :: 0 <= i < |events| ==> events[i].fd == serverFd || events[i].fd in clients)
  }

  lemma PickOne(s: set<int>) returns (x: int)
    requires |s| > 0
    ensures x in s && |s - {x}| == |s| - 1
  {
    assert (forall y: int :: y !in s) ==> s == {};
    var y: int :| y in s;
    x := y;
  }

  /** Never more transfers than open clients. */
  lemma {:induction false} AtMostOnePerClient(events: seq<Event>, serverFd: int, clients: set<int>)
    requires Reportable(events, serverFd, clients)
    ensures |Collected(events, serverFd)| <= |clients|
    decreases |events|
  {
    if events != [] {
      var n := |events| - 1;
      var front, e := events[..n], events[n];
      if e.fd in clients {
        assert Reportable(front, serverFd, clients - {e.fd});
        AtMostOnePerClient(front, serverFd, clients - {e.fd});
        assert |clients - {e.fd}| == |clients| - 1;
      } else {
        AtMostOnePerClient(front, serverFd, clients);
      }
    }
  }

  function SendAll(fds: seq<int>): (es: seq<Event>)
    ensures |es| == |fds| && forall i :: 0 <= i < |es| ==> es[i].fd == fds[i] && es[i].valread == FRAME_BYTES
  {
    seq(|fds|, i requires 0 <= i < |fds| => Event(fds[i], NOT_CONNECTED, FRAME_BYTES, Frame(0, 0, 0, 0)))
  }

  lemma {:induction false} SendAllCollected(es: seq<Event>, serverFd: int)
    requires forall i :: 0 <= i < |es| ==> FullFrame(es[i], serverFd)
    ensures |Collected(es, serverFd)| == |es|
  {
    if es == [] {
    } else {
      SendAllCollected(es[..|es| - 1], serverFd);
    }
  }

  /** Every batch fits the callers' three-entry buffers exactly when at most three clients are open. */
  lemma BufferSufficesIff(serverFd: int, clients: set<int>)
    requires serverFd !in clients
    ensures |clients| <= CALLER_BUFFER
            <==> forall events :: Reportable(events, serverFd, clients)
                                  ==> |Collected(events, serverFd)| <= CALLER_BUFFER
  {
    forall events | Reportable(events, serverFd, clients)
      ensures |Collected(events, serverFd)| <= |clients|
    {
      AtMostOnePerClient(events, serverFd, clients);
    }
    if |clients| > CALLER_BUFFER {
      var a := PickOne(clients);
      var b := PickOne(clients - {a});
      var c := PickOne(clients - {a} - {b});
      var d := PickOne(clients - {a} - {b} - {c});
      var events := SendAll([a, b, c, d]);
      SendAllCollected(events, serverFd);
      assert Reportable(events, serverFd, clients);
    }
  }

  // ---------- the loop ----------

  class Server {
    const serverFd: int
    var sockFd: int
    var closed: seq<int>

    constructor (serverFd: int)
      ensures this.serverFd == serverFd && sockFd == NOT_CONNECTED && closed == []
    {
      this.serverFd := serverFd;
      this.sockFd := NOT_CONNECTED;
      this.closed := [];
    }

    /** `exited` stands for the process exit after a failed recv or accept. */
    method Wait(events: seq<Event>, vpt: array<Transfer>) returns (exited: bool, count: nat)
      requires |Collected(events, serverFd)| <= vpt.Length
      modifies this`sockFd, this`closed, vpt
      ensures exited
              <==> exists i :: 0 <= i < |events|
                               && (if events[i].fd == serverFd then events[i].accepted < 0 else events[i].valread < 0)
      ensures !exited ==> count == |Collected(events, serverFd)| && vpt[..count] == Collected(events, serverFd)
      ensures !exited ==> sockFd == Connection(old(sockFd), events, serverFd)
      ensures !exited ==> closed == old(closed) + HungUp(events, serverFd)
      ensures !exited ==> forall i :: count <= i < vpt.Length ==> vpt[i] == old(vpt[i])
    {
      exited, count := false, 0;
      var i := 0;
      while i < |events|
        invariant 0 <= i <= |events|
        invariant !exited && forall j :: 0 <= j < i ==> !Fails(events[j], serverFd)
        invariant count == |Collected(events[..i], serverFd)| <= vpt.Length
        invariant vpt[..count] == Collected(events[..i], serverFd)
        invariant sockFd == Connection(old(sockFd), events[..i], serverFd)
        invariant closed == old(closed) + HungUp(events[..i], serverFd)
        invariant forall k :: count <= k < vpt.Length ==> vpt[k] == old(vpt[k])
      {
        var e := events[i];
        assert events[..i + 1][..i] == events[..i];
        CollectedGrows(events, i + 1, serverFd);
        if e.fd == serverFd {
          sockFd := e.accepted;
          if e.accepted < 0 {
            closed := closed + [e.accepted];
            exited := true;
            return;
          }
        } else if e.valread < 0 {
          closed := closed + [e.fd];
          exited := true;
          return;
        } else if e.valread == 0 {
          closed := closed + [e.fd];
        } else if e.valread == FRAME_BYTES {
          vpt[count] := Transfer(e.fd, e.frame);
          count := count + 1;
        }
        i := i + 1;
      }
      assert events[..i] == events;
    }

    /** The connect loop of mmio_bus_realize over the batches that arrive. It leaves at the first one after
        which a client is connected, the process exits at the first one with a failure, and otherwise it goes
        through them all. */
    method WaitForClient(batches: seq<seq<Event>>) returns (exited: bool, used: nat)
      requires sockFd == NOT_CONNECTED
      requires forall i :: 0 <= i < |batches| ==> |Collected(batches[i], serverFd)| <= CALLER_BUFFER
      modifies this`sockFd, this`closed
      ensures used <= |batches|
      ensures exited ==> 0 < used
      ensures 0 < used ==> (exited <==> AnyFails(batches[used - 1], serverFd))
      ensures !exited && sockFd == NOT_CONNECTED ==> used == |batches|
      ensures !exited && sockFd != NOT_CONNECTED ==> 0 < used
      ensures !exited && 0 < used ==> sockFd == Connection(NOT_CONNECTED, batches[used - 1], serverFd)
      ensures forall i :: 0 <= i < used - 1
                          ==> !AnyFails(batches[i], serverFd)
                              && Connection(NOT_CONNECTED, batches[i], serverFd) == NOT_CONNECTED
    {
      var blank := Transfer(NOT_CONNECTED, Frame(0, 0, 0, 0));
      var vpt := new Transfer[CALLER_BUFFER](_ => blank);
      exited, used := false, 0;
      while used < |batches|
        invariant 0 <= used <= |batches| && !exited && sockFd == NOT_CONNECTED
        invariant forall i :: 0 <= i < used
                              ==> !AnyFails(batches[i], serverFd)
                                  && Connection(NOT_CONNECTED, batches[i], serverFd) == NOT_CONNECTED
      {
        var count;
        exited, count := Wait(batches[used], vpt);
        used := used + 1;
        if exited || sockFd != NOT_CONNECTED {
          return;
        }
      }
    }
  }

  lemma {:induction false} CollectedGrows(events: seq<Event>, i: nat, serverFd: int)
    requires i <= |events|
    ensures |Collected(events[..i], serverFd)| <= |Collected(events, serverFd)|
    decreases |events| - i
  {
    if i < |events| {
      CollectedGrows(events, i + 1, serverFd);
      assert events[..i + 1][..i] == events[..i];
    } else {
      assert events[..i] == events;
    }
  }
}
