/** The 32-byte frames both ends exchange, and the constants they agree on. */
module Vpipc {
  import opened Words

  const VP_WRITE: uint64 := 0
  const VP_READ: uint64 := 1
  const VP_RAISE_IRQ: uint64 := 2
  const VP_WRITE_RESP: uint64 := 3
  const VP_READ_RESP: uint64 := 4
  const VP_RAISE_IRQ_RESP: uint64 := 5
  const VP_ERROR: uint64 := 6

  const VP_OK: uint64 := 0
  const VP_FAIL: uint64 := 1

  /** The size of a frame on the wire: four 64-bit fields. */
  const FRAME_BYTES := 32

  const MMIO_ADDR: uint64 := 0x600_0000
  const MMIO_SIZE: uint64 := 0x600_0000

  /** `word` is the union of status (in responses) and length (in requests). */
  datatype Frame = Frame(typ: uint64, word: uint64, addr: uint64, data: uint64)

  /** A guest access to the MMIO window, as the memory core hands it to the device. */
  datatype Access = Access(isWrite: bool, offset: uint64, size: nat, value: uint64)

  predicate ValidAccess(op: Access) {
    op.offset < MMIO_SIZE && (op.size == 1 || op.size == 2 || op.size == 4)
  }

  function Request(op: Access): Frame
    requires ValidAccess(op)
  {
    if op.isWrite then Frame(VP_WRITE, op.size, MMIO_ADDR + op.offset, op.value)
    else Frame(VP_READ, op.size, MMIO_ADDR + op.offset, 0)
  }

  function ResponseType(op: Access): uint64 {
    if op.isWrite then VP_WRITE_RESP else VP_READ_RESP
  }
}
