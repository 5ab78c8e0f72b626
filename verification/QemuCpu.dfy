/** The SystemC client: it answers request frames from the TLM memory, reusing one response record. */
module QemuCpuModel {
  import opened Words
  import opened Vpipc
  import opened MemoryModel

  /** Either the response record to send, or a TLM error report, which stops the simulation. */
  datatype Outcome = Replied(mem: seq<byte>, resp: Frame) | TlmError(mem: seq<byte>, resp: Frame)

  function Length(f: Frame): uint32 {
    f.word % 0x1_0000_0000
  }

  function Check(f: Frame): Status {
    CheckPayload(f.addr / 4, Length(f), false, 4)
  }

  function Written(mem: seq<byte>, f: Frame): (r: seq<byte>)
    requires |mem| == MEM_BYTES && Check(f) == Ok
    ensures |r| == MEM_BYTES
  {
    Patch(mem, 4 * (f.addr / 4), ToLE(f.data % 0x1_0000_0000, Length(f)))
  }

  function Loaded(mem: seq<byte>, f: Frame): uint64
    requires |mem| == MEM_BYTES && Check(f) == Ok
  {
    var k, n := f.addr / 4, Length(f);
    ReadIsGetLow(mem, k, n);
    FromLE(mem[4 * k..4 * k + n])
  }

  /** One turn of the request switch: new memory and new contents of the reused record. */
  function Handle(mem: seq<byte>, resp: Frame, f: Frame): (o: Outcome)
    requires |mem| == MEM_BYTES
    ensures |o.mem| == MEM_BYTES
  {
    if f.typ == VP_WRITE then
      if Check(f) == Ok
      then Replied(Written(mem, f), Frame(VP_WRITE_RESP, VP_OK, f.addr, resp.data))
      else TlmError(mem, resp)
    else if f.typ == VP_READ then
      if Check(f) == Ok
      then Replied(mem, Frame(VP_READ_RESP, VP_OK, f.addr, Loaded(mem, f)))
      else TlmError(mem, Frame(VP_READ_RESP, VP_OK, f.addr, resp.data))
    else
      Replied(mem, resp.(typ := VP_ERROR, word := VP_FAIL))
  }

  class QemuCpu {
    var resp: Frame
    const memory: Memory

    ghost predicate Valid()
      reads memory
    {
      memory.Valid()
    }

    constructor (memory: Memory, stale: Frame)
      requires memory.Valid()
      ensures Valid() && this.memory == memory && resp == stale
    {
      this.memory := memory;
      this.resp := stale;
    }

    method TlmRead(f: Frame) returns (ok: bool, value: uint64)
      requires Valid()
      modifies memory.mem
      ensures ok == (Check(f) == Ok)
      ensures memory.mem[..] == old(memory.mem[..])
      ensures ok ==> value == Loaded(memory.mem[..], f)
    {
      var data := new byte[4](_ => 0);
      var status := memory.BTransport(Read, f.addr, data, Length(f), false, 4);
      ok := status == Ok;
      var bytes := data[..];
      FromLEBound(bytes);
      Pow256Of4();
      value := FromLE(bytes);
      if ok {
        var k, n := f.addr / 4, Length(f);
        var head: seq<byte> := memory.mem[4 * k..4 * k + n];
        assert bytes == head + bytes[n..];
        FromLEAppend(head, bytes[n..]);
        FromLEZeros(bytes[n..]);
        assert memory.mem[..][4 * k..4 * k + n] == head;
      }
    }

    method TlmWrite(f: Frame) returns (ok: bool)
      requires Valid()
      modifies memory.mem
      ensures ok == (Check(f) == Ok)
      ensures memory.mem[..] == if ok then Written(old(memory.mem[..]), f) else old(memory.mem[..])
    {
      var word := f.data % 0x1_0000_0000;
      var le := ToLE(word, 4);
      var data := new byte[4](i requires 0 <= i < 4 => le[i]);
      assert data[..] == le;
      var status := memory.BTransport(Write, f.addr, data, Length(f), false, 4);
      ok := status == Ok;
      if ok {
        ToLEPrefix(word, Length(f), 4);
        assert data[..Length(f)] == le[..Length(f)];
      }
    }

    /** Handles one received frame; the record `resp` is what vp_nb_response then sends. */
    method Answer(f: Frame) returns (ok: bool)
      requires Valid()
      modifies this`resp, memory.mem
      ensures ok == Handle(old(memory.mem[..]), old(resp), f).Replied?
      ensures memory.mem[..] == Handle(old(memory.mem[..]), old(resp), f).mem
      ensures resp == Handle(old(memory.mem[..]), old(resp), f).resp
    {
      ok := true;
      if f.typ == VP_WRITE {
        ok := TlmWrite(f);
        if ok {
          resp := resp.(typ := VP_WRITE_RESP, word := VP_OK, addr := f.addr);
        }
      } else if f.typ == VP_READ {
        resp := resp.(typ := VP_READ_RESP, word := VP_OK, addr := f.addr);
        var value;
        ok, value := TlmRead(f);
        if ok {
          resp := resp.(data := value);
        }
      } else {
        resp := resp.(typ := VP_ERROR, word := VP_FAIL);
      }
    }
  }

  // ---------- requests the MMIO bus can forward ----------

  function Cell(op: Access): nat {
    (MMIO_ADDR + op.offset) / 4
  }

  /** Every forwarded access passes all target checks and touches one existing cell. */
  lemma ForwardedInRange(op: Access)
    requires ValidAccess(op)
    ensures Check(Request(op)) == Ok && Cell(op) < SIZE && Length(Request(op)) == op.size
  {
  }

  /** Any request the target accepts, whatever its length, is one access to one cell; the record keeps its old data
      on a write. */
  lemma HandleChecked(mem: seq<byte>, resp: Frame, f: Frame)
    requires |mem| == MEM_BYTES && (f.typ == VP_WRITE || f.typ == VP_READ) && Check(f) == Ok
    ensures f.addr / 4 < |Cells(mem)| && f.word % 0x1_0000_0000 <= 4
    ensures var o, k, n := Handle(mem, resp, f), f.addr / 4, f.word % 0x1_0000_0000;
            && o.Replied?
            && (f.typ == VP_WRITE
                ==> Cells(o.mem) == Cells(mem)[k := PutLow(Cells(mem)[k], f.data, n)]
                    && o.resp == Frame(3, 0, f.addr, resp.data))
            && (f.typ == VP_READ ==> o.mem == mem && o.resp == Frame(4, 0, f.addr, GetLow(Cells(mem)[k], n)))
  {
    if f.typ == VP_WRITE {
      WriteChecked(mem, resp, f);
    } else {
      ReadIsGetLow(mem, f.addr / 4, Length(f));
    }
  }

  lemma WriteChecked(mem: seq<byte>, resp: Frame, f: Frame)
    requires |mem| == MEM_BYTES && f.typ == VP_WRITE && Check(f) == Ok
    ensures f.addr / 4 < |Cells(mem)| && f.word % 0x1_0000_0000 <= 4
    ensures Handle(mem, resp, f).Replied?
    ensures Cells(Handle(mem, resp, f).mem)
            == Cells(mem)[f.addr / 4 := PutLow(Cells(mem)[f.addr / 4], f.data, f.word % 0x1_0000_0000)]
  {
    Pow256Of4();
    ToLETruncate(f.data, Length(f), 4);
    WriteIsPutLow(mem, f.addr / 4, f.data, Length(f));
  }

  /** A request the target refuses changes no memory and is not answered. */
  lemma HandleRefused(mem: seq<byte>, resp: Frame, f: Frame)
    requires |mem| == MEM_BYTES && (f.typ == VP_WRITE || f.typ == VP_READ) && Check(f) != Ok
    ensures Handle(mem, resp, f).TlmError? && Handle(mem, resp, f).mem == mem
  {
  }

  /** A frame of any other type changes no memory and is answered with an error, the record's address and data
      being left over from before. */
  lemma HandleUnknown(mem: seq<byte>, resp: Frame, f: Frame)
    requires |mem| == MEM_BYTES && f.typ >= 2
    ensures Handle(mem, resp, f) == Replied(mem, Frame(6, 1, resp.addr, resp.data))
  {
  }

  /** Handling a forwarded request is one access to an array of 32-bit cells, and the answer says so. */
  lemma HandleRefinesCells(mem: seq<byte>, resp: Frame, op: Access)
    requires |mem| == MEM_BYTES && ValidAccess(op)
    ensures var o := Handle(mem, resp, Request(op));
            && o.Replied?
            && o.resp.typ == ResponseType(op) && o.resp.word == VP_OK && o.resp.addr == Request(op).addr
            && Cell(op) < |Cells(mem)|
            && (op.isWrite
                ==> Cells(o.mem) == Cells(mem)[Cell(op) := PutLow(Cells(mem)[Cell(op)], op.value, op.size)])
            && (!op.isWrite
                ==> o.mem == mem && o.resp.data == GetLow(Cells(mem)[Cell(op)], op.size))
  {
    ForwardedInRange(op);
    if op.isWrite { WriteRefinesCells(mem, resp, op); } else { ReadRefinesCells(mem, resp, op); }
  }

  lemma WriteRefinesCells(mem: seq<byte>, resp: Frame, op: Access)
    requires |mem| == MEM_BYTES && ValidAccess(op) && op.isWrite
    ensures Cell(op) < |Cells(mem)| && Handle(mem, resp, Request(op)).Replied?
    ensures Cells(Handle(mem, resp, Request(op)).mem)
            == Cells(mem)[Cell(op) := PutLow(Cells(mem)[Cell(op)], op.value, op.size)]
  {
    ForwardedInRange(op);
    Pow256Of4();
    ToLETruncate(op.value, op.size, 4);
    WriteIsPutLow(mem, Cell(op), op.value, op.size);
  }

  lemma ReadRefinesCells(mem: seq<byte>, resp: Frame, op: Access)
    requires |mem| == MEM_BYTES && ValidAccess(op) && !op.isWrite
    ensures Cell(op) < |Cells(mem)|
    ensures var o := Handle(mem, resp, Request(op));
            o.Replied? && o.mem == mem && o.resp.data == GetLow(Cells(mem)[Cell(op)], op.size)
  {
    ForwardedInRange(op);
    ReadIsGetLow(mem, Cell(op), op.size);
  }
}
