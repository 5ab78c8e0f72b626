/** Configuration and constants of the aislab board: the fixed memory map, interrupt numbers, and the
    values it takes from QEMU's headers. */
module Board {

  /** A half-open address range. */
  datatype Window = Window(base: nat, size: nat)

  predicate Apart(a: Window, b: Window) {
    a.base + a.size <= b.base || b.base + b.size <= a.base
  }

  const CPUS_MAX := 512
  const SOCKETS_MAX := 4
  const MAX_GUESTS := 7

  // ---------- the memory map ----------

  const MROM := Window(0x1000, 0xf000)
  const TEST := Window(0x10_0000, 0x1000)
  const RTC := Window(0x10_1000, 0x1000)
  const CLINT := Window(0x200_0000, 0x1_0000)
  const ACLINT_SSWI := Window(0x2F0_0000, 0x4000)
  const PCIE_PIO := Window(0x300_0000, 0x1_0000)
  const PLATFORM_BUS := Window(0x400_0000, 0x200_0000)
  const MMIO_BUS := Window(0x600_0000, 0x600_0000)
  const PLIC := Window(0xc00_0000, 0x20_0000 + 2 * CPUS_MAX * 0x1000)
  const APLIC_M := Window(0xc00_0000, 0x8000)
  const APLIC_S := Window(0xd00_0000, 0x8000)
  const UART0 := Window(0x1000_0000, 0x100)
  const VIRTIO := Window(0x1000_1000, 0x1000)
  const FW_CFG := Window(0x1010_0000, 0x18)
  const FLASH := Window(0x2000_0000, 0x400_0000)
  const IMSIC_M_BASE := 0x2400_0000
  const IMSIC_S_BASE := 0x2800_0000
  const PCIE_ECAM := Window(0x3000_0000, 0x1000_0000)
  const PCIE_MMIO := Window(0x4000_0000, 0x4000_0000)
  const DRAM_BASE := 0x8000_0000

  const GIB := 0x4000_0000
  const HIGH_PCIE_32 := Window(0x3_0000_0000, 4 * GIB)
  const HIGH_PCIE_64_SIZE := 16 * GIB

  // ---------- values of QEMU's own headers ----------

  const GPEX_NUM_IRQS := 4
  const ACLINT_SWI_SIZE := 0x4000
  const ACLINT_MTIMER_SIZE := 0x8000
  const ACLINT_MTIMECMP := 0
  const ACLINT_MTIME := 0x7ff8
  const IMSIC_PAGE_SIZE := 0x1000
  const IMSIC_PAGE_SHIFT := 12
  const IMSIC_GROUP_SHIFT := 24
  const IMSIC_GROUP_MAX_SIZE := 0x100_0000

  const IRQ_S_SOFT := 1
  const IRQ_M_SOFT := 3
  const IRQ_M_TIMER := 7
  const IRQ_S_EXT := 9
  const IRQ_M_EXT := 11

  // ---------- interrupt lines of the board's devices ----------

  const UART0_IRQ := 10
  const RTC_IRQ := 11
  const VIRTIO_IRQ := 1
  const VIRTIO_COUNT := 8
  const PCIE_IRQ := 0x20
  const PLATFORM_BUS_IRQ := 64
  const PLATFORM_BUS_NUM_IRQS := 32
  const MMIO_BUS_IRQ := 96
  const NUM_SOURCES := 97

  // ---------- configuration ----------

  datatype Aia = NoAia | Aplic | AplicImsic
  datatype Accel = Tcg | Qtest | Kvm

  /** One socket: a run of consecutive hart ids. */
  datatype Soc = Soc(hartBase: nat, numHarts: nat)

  datatype Config = Config(
    socs: seq<Soc>,
    aia: Aia,
    guests: nat,
    aclint: bool,
    accel: Accel,
    kernelIrqchip: bool,
    rv32: bool,
    ram: nat)

  function Harts(socs: seq<Soc>): nat {
    if socs == [] then 0 else Harts(socs[..|socs| - 1]) + socs[|socs| - 1].numHarts
  }

  function Cpus(c: Config): nat {
    Harts(c.socs)
  }

  /** Position of socket k's first hart in the global order. */
  function Pos(c: Config, k: nat): nat
    requires k <= |c.socs|
  {
    Harts(c.socs[..k])
  }

  /** KVM's in-kernel AIA, which has a single APLIC. */
  predicate KvmAia(c: Config) {
    c.accel == Kvm && c.kernelIrqchip && c.aia == AplicImsic
  }

  predicate AclintAllowed(c: Config) {
    c.accel == Tcg || c.accel == Qtest
  }

  /** What the machine's limit checks and property setters admit. */
  predicate Accepted(c: Config) {
    && 1 <= |c.socs| <= SOCKETS_MAX
    && Cpus(c) <= CPUS_MAX
    && c.guests <= MAX_GUESTS
    && (c.aclint ==> AclintAllowed(c))
    && c.ram < 0x1_0000_0000_0000_0000
  }

  lemma PosStep(c: Config, k: nat)
    requires k < |c.socs|
    ensures Pos(c, k + 1) == Pos(c, k) + c.socs[k].numHarts
  {
    assert c.socs[..k + 1][..k] == c.socs[..k];
  }

  lemma PosEnds(c: Config)
    ensures Pos(c, 0) == 0 && Pos(c, |c.socs|) == Cpus(c)
  {
    assert c.socs[..|c.socs|] == c.socs;
  }

  lemma {:induction false} PosMonotone(c: Config, j: nat, k: nat)
    requires j <= k <= |c.socs|
    ensures Pos(c, j) <= Pos(c, k)
    decreases k - j
  {
    if j == k {
    } else {
      PosStep(c, j);
      PosMonotone(c, j + 1, k);
    }
  }

  /** Socket k's slice of the global hart order lies inside it. */
  lemma SliceInside(c: Config, k: nat)
    requires k < |c.socs|
    ensures Pos(c, k) + c.socs[k].numHarts <= Cpus(c)
  {
    PosStep(c, k);
    PosEnds(c);
    PosMonotone(c, k + 1, |c.socs|);
  }

  /** The socket whose slice holds position g. */
  lemma SocketOf(c: Config, g: nat) returns (k: nat)
    requires g < Cpus(c)
    ensures k < |c.socs| && Pos(c, k) <= g < Pos(c, k) + c.socs[k].numHarts
  {
    PosEnds(c);
    k := 0;
    while k < |c.socs| && Pos(c, k + 1) <= g
      invariant k <= |c.socs| && Pos(c, k) <= g
    {
      k := k + 1;
    }
    PosStep(c, k);
  }

  lemma OneSocket(c: Config, g: nat, j: nat, k: nat)
    requires j < |c.socs| && Pos(c, j) <= g < Pos(c, j) + c.socs[j].numHarts
    requires k < |c.socs| && Pos(c, k) <= g < Pos(c, k) + c.socs[k].numHarts
    ensures j == k
  {
    PosStep(c, j);
    PosStep(c, k);
    if j < k { PosMonotone(c, j + 1, k); }
    if k < j { PosMonotone(c, k + 1, j); }
  }

  /** Every position belongs to exactly one socket's slice: the slices tile 0..Cpus. */
  lemma SlicesTile(c: Config, g: nat) returns (k: nat)
    requires g < Cpus(c)
    ensures k < |c.socs| && Pos(c, k) <= g < Pos(c, k) + c.socs[k].numHarts
    ensures forall j :: 0 <= j < |c.socs| && Pos(c, j) <= g < Pos(c, j) + c.socs[j].numHarts ==> j == k
  {
    k := SocketOf(c, g);
    forall j | 0 <= j < |c.socs| && Pos(c, j) <= g < Pos(c, j) + c.socs[j].numHarts
      ensures j == k
    {
      OneSocket(c, g, j, k);
    }
  }
}
