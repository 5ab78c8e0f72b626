/** The sequential reference: one array of 32-bit cells and the accesses the guest makes to it. */
module CellModel {
  import opened Words
  import opened Vpipc
  import opened MemoryModel
  import opened QemuCpuModel

  type CellArray = c: seq<uint32> | |c| == SIZE witness seq(SIZE, _ => 0)

  function Apply(cells: CellArray, op: Access): CellArray
    requires ValidAccess(op)
  {
    ForwardedInRange(op);
    if op.isWrite then cells[Cell(op) := PutLow(cells[Cell(op)], op.value, op.size)] else cells
  }

  /** What the guest gets back: the low bytes of the cell for a read, nothing (0) for a write. */
  function Result(cells: CellArray, op: Access): uint64
    requires ValidAccess(op)
  {
    ForwardedInRange(op);
    if op.isWrite then 0 else GetLow(cells[Cell(op)], op.size)
  }

  predicate AllValid(ops: seq<Access>) {
    forall i :: 0 <= i < |ops| ==> ValidAccess(ops[i])
  }

  function ApplyAll(cells: CellArray, ops: seq<Access>): CellArray
    requires AllValid(ops)
  {
    if ops == [] then cells else Apply(ApplyAll(cells, ops[..|ops| - 1]), ops[|ops| - 1])
  }

  /** Frame f answers op made on these cells: its type, VP_OK, its address and, for a read, the cell's bytes. */
  predicate Answers(f: Frame, op: Access, before: CellArray)
    requires ValidAccess(op)
  {
    && f.typ == ResponseType(op) && f.word == VP_OK && f.addr == Request(op).addr
    && (!op.isWrite ==> f.data == Result(before, op))
  }

  /** Frame i answers access i, made on the cells that the accesses before it leave. */
  predicate AllAnswered(sent: seq<Frame>, ops: seq<Access>, init: CellArray)
    requires AllValid(ops)
  {
    |sent| == |ops| && forall i :: 0 <= i < |sent| ==> Answers(sent[i], ops[i], ApplyAll(init, ops[..i]))
  }

  lemma AllAnsweredGrows(sent: seq<Frame>, ops: seq<Access>, init: CellArray, f: Frame, op: Access)
    requires AllValid(ops) && ValidAccess(op)
    requires AllAnswered(sent, ops, init) && Answers(f, op, ApplyAll(init, ops))
    ensures AllValid(ops + [op]) && AllAnswered(sent + [f], ops + [op], init)
    ensures ApplyAll(init, ops + [op]) == Apply(ApplyAll(init, ops), op)
  {
    var n, longer := |ops|, ops + [op];
    assert longer[..n] == ops;
    forall i | 0 <= i < n + 1
      ensures Answers((sent + [f])[i], longer[i], ApplyAll(init, longer[..i]))
    {
      if i < n { assert longer[..i] == ops[..i]; }
    }
  }

  /** Serving a forwarded request performs it on the cells and fills the record with its answer. */
  lemma HandleApplies(mem: seq<byte>, resp: Frame, op: Access)
    requires |mem| == MEM_BYTES && ValidAccess(op)
    ensures var o := Handle(mem, resp, Request(op));
            o.Replied? && Cells(o.mem) == Apply(Cells(mem), op) && Answers(o.resp, op, Cells(mem))
  {
    ForwardedInRange(op);
    HandleRefinesCells(mem, resp, op);
  }
}
