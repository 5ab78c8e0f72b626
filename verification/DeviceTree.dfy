/** The nodes finalize_fdt adds to the device tree, with their phandles given by formula. */
module DeviceTree {
  import opened Options
  import opened Board
  import opened Imsic
  import opened AddressSpace
  import opened PcieIrqMap

  datatype TimerKind = Clint | Mswi | MtimerTimer | SswiTimer

  datatype Node =
    | Cluster(socket: nat)
    | Cpu(hart: nat, socket: nat, phandle: nat)
    | CpuIntc(hart: nat, phandle: nat)
    | Core(socket: nat, core: nat, cpu: nat)
    | Memory(socket: nat)
    | Timer(kind: TimerKind, socket: nat, reg: seq<Window>, interrupts: seq<nat>)
    | ImsicNode(mMode: bool, reg: seq<Window>, interrupts: seq<nat>, index: Index, phandle: nat)
    | PlicNode(socket: nat, reg: seq<Window>, interrupts: seq<nat>, phandle: nat)
    | AplicNode(mMode: bool, socket: nat, reg: seq<Window>, interrupts: seq<nat>, msiParent: Option<nat>,
                child: Option<nat>, phandle: nat)
    | Wired(dev: Dev, reg: seq<Window>, parent: nat, interrupts: seq<nat>)
    | Pcie(reg: seq<Window>, ranges: seq<Window>, msiParent: Option<nat>, irqMap: seq<nat>)
    | TestNode(reg: seq<Window>, phandle: nat)
    | Syscon(reboot: bool, regmap: nat)

  // ---------- phandles ----------

  function IntcPhandle(c: Config, g: nat): nat
    requires g < Cpus(c)
  {
    2 * (Cpus(c) - g)
  }

  function CpuPhandle(c: Config, g: nat): nat
    requires g < Cpus(c)
  {
    2 * (Cpus(c) - g) - 1
  }

  /** The interrupt-controller phandles of positions lo .. lo + n. */
  function Intcs(c: Config, lo: nat, n: nat): (s: seq<nat>)
    requires lo + n <= Cpus(c)
    ensures |s| == n
  {
    seq<nat>(n, i requires 0 <= i < n => IntcPhandle(c, lo + i))
  }

  function ImsicPhandle(c: Config, mMode: bool): nat {
    2 * Cpus(c) + if mMode then 1 else 2
  }

  /** The last phandle before the wired controllers. */
  function BeforeXplics(c: Config): nat {
    2 * Cpus(c) + if c.aia == AplicImsic then 2 else 0
  }

  /** Sockets with a controller node of their own. */
  function XplicSockets(c: Config): nat {
    if KvmAia(c) then 1 else |c.socs|
  }

  function PlicPhandle(c: Config, k: nat): nat
    requires k < XplicSockets(c)
  {
    BeforeXplics(c) + XplicSockets(c) - k
  }

  function AplicPhandle(c: Config, mMode: bool, k: nat): nat
    requires k < XplicSockets(c)
  {
    BeforeXplics(c) + 2 * (XplicSockets(c) - k) - if mMode then 1 else 0
  }

  /** The phandle that device interrupts of socket k's controller are sent to. */
  function XplicPhandle(c: Config, k: nat): nat
    requires k < XplicSockets(c)
  {
    if c.aia == NoAia then PlicPhandle(c, k) else AplicPhandle(c, false, k)
  }

  /** The next phandle once the controllers of sockets k and up have theirs. */
  function AfterXplics(c: Config, k: nat): nat
    requires k <= XplicSockets(c)
  {
    BeforeXplics(c) + 1 + if c.aia == NoAia then XplicSockets(c) - k else 2 * (XplicSockets(c) - k)
  }

  /** How many phandles finalize_fdt issues; the last one is the reset node's. */
  function LastPhandle(c: Config): nat {
    AfterXplics(c, 0)
  }

  lemma IntcsJoin(c: Config, lo: nat, n: nat, m: nat)
    requires lo + n + m <= Cpus(c)
    ensures Intcs(c, lo, n + m) == Intcs(c, lo, n) + Intcs(c, lo + n, m)
  {
  }

  /** The phandle the counter stands at before the harts of socket k and up have been given theirs. */
  function CounterAt(c: Config, pos: nat): int {
    2 * (Cpus(c) - pos) + 1
  }

  // ---------- interrupts-extended ----------

  /** The cells one hart contributes: its controller, once for each interrupt line. */
  function HartLines(p: nat, irqs: seq<nat>): seq<nat> {
    if irqs == [] then [] else HartLines(p, irqs[..|irqs| - 1]) + [p, irqs[|irqs| - 1]]
  }

  function Lines(ps: seq<nat>, irqs: seq<nat>): seq<nat> {
    if ps == [] then [] else Lines(ps[..|ps| - 1], irqs) + HartLines(ps[|ps| - 1], irqs)
  }

  function ExtIrq(mMode: bool): nat {
    if mMode then IRQ_M_EXT else IRQ_S_EXT
  }

  function PlicIrqs(c: Config): seq<nat> {
    if c.accel == Kvm then [IRQ_S_EXT] else [IRQ_M_EXT, IRQ_S_EXT]
  }

  // ---------- per-socket nodes ----------

  function SocketIntcs(c: Config, k: nat): seq<nat>
    requires k < |c.socs|
  {
    SliceInside(c, k);
    Intcs(c, Pos(c, k), c.socs[k].numHarts)
  }

  /** The nodes of one hart, counted from its socket's first. */
  function HartNodes(c: Config, k: nat, i: nat): seq<Node>
    requires k < |c.socs| && i < c.socs[k].numHarts
  {
    SliceInside(c, k);
    var g, hart := Pos(c, k) + i, c.socs[k].hartBase + i;
    [Cpu(hart, k, CpuPhandle(c, g)), CpuIntc(hart, IntcPhandle(c, g)), Core(k, i, CpuPhandle(c, g))]
  }

  /** The nodes of harts i and up, highest first. */
  function CpusFrom(c: Config, k: nat, i: nat): seq<Node>
    requires k < |c.socs| && i <= c.socs[k].numHarts
    decreases c.socs[k].numHarts - i
  {
    if i == c.socs[k].numHarts then [] else CpusFrom(c, k, i + 1) + HartNodes(c, k, i)
  }

  function MtimerBase(c: Config, k: nat): nat {
    if c.aia == AplicImsic then CLINT.base + ACLINT_MTIMER_SIZE * k
    else CLINT.base + ACLINT_SWI_SIZE + CLINT.size * k
  }

  function MtimerSpan(c: Config): nat {
    if c.aia == AplicImsic then ACLINT_MTIMER_SIZE else CLINT.size - ACLINT_SWI_SIZE
  }

  function MswiNode(c: Config, k: nat): Node
    requires k < |c.socs|
  {
    Timer(Mswi, k, [Window(CLINT.base + CLINT.size * k, ACLINT_SWI_SIZE)], Lines(SocketIntcs(c, k), [IRQ_M_SOFT]))
  }

  function MtimerNode(c: Config, k: nat): Node
    requires k < |c.socs|
  {
    Timer(MtimerTimer, k,
          [Window(MtimerBase(c, k) + ACLINT_MTIME, MtimerSpan(c) - ACLINT_MTIME),
           Window(MtimerBase(c, k) + ACLINT_MTIMECMP, ACLINT_MTIME)],
          Lines(SocketIntcs(c, k), [IRQ_M_TIMER]))
  }

  function SswiNode(c: Config, k: nat): Node
    requires k < |c.socs|
  {
    Timer(SswiTimer, k, [Window(ACLINT_SSWI.base + ACLINT_SSWI.size * k, ACLINT_SSWI.size)],
          Lines(SocketIntcs(c, k), [IRQ_S_SOFT]))
  }

  function ClintNode(c: Config, k: nat): Node
    requires k < |c.socs|
  {
    Timer(Clint, k, [Window(CLINT.base + CLINT.size * k, CLINT.size)],
          Lines(SocketIntcs(c, k), [IRQ_M_SOFT, IRQ_M_TIMER]))
  }

  function TimerNodes(c: Config, k: nat): seq<Node>
    requires k < |c.socs|
  {
    if AclintAllowed(c) && c.aclint then
      (if c.aia != AplicImsic then [MswiNode(c, k)] else []) + [MtimerNode(c, k)]
      + (if c.aia != AplicImsic then [SswiNode(c, k)] else [])
    else if c.accel == Tcg then [ClintNode(c, k)]
    else []
  }

  function SocketNodes(c: Config, k: nat): seq<Node>
    requires k < |c.socs|
  {
    [Cluster(k)] + CpusFrom(c, k, 0) + [Memory(k)] + TimerNodes(c, k)
  }

  /** Sockets k and up, highest first. */
  function SocketsFrom(c: Config, k: nat): seq<Node>
    requires k <= |c.socs|
    decreases |c.socs| - k
  {
    if k == |c.socs| then [] else SocketsFrom(c, k + 1) + SocketNodes(c, k)
  }

  // ---------- interrupt controllers ----------

  function ImsicRegs(c: Config, mMode: bool): seq<Window> {
    seq(|c.socs|, k requires 0 <= k < |c.socs| =>
      Window(ImsicBase(mMode) + k * IMSIC_GROUP_MAX_SIZE, HartSize(GuestBits(c, mMode)) * c.socs[k].numHarts))
  }

  function OneImsic(c: Config, mMode: bool): Node {
    ImsicNode(mMode, ImsicRegs(c, mMode), Lines(Intcs(c, 0, Cpus(c)), [ExtIrq(mMode)]), IndexOf(c, mMode),
              ImsicPhandle(c, mMode))
  }

  function ImsicNodes(c: Config): seq<Node> {
    if c.aia != AplicImsic then []
    else (if c.accel != Kvm then [OneImsic(c, true)] else []) + [OneImsic(c, false)]
  }

  function OnePlic(c: Config, k: nat): Node
    requires k < |c.socs| && k < XplicSockets(c)
  {
    PlicNode(k, [Window(PLIC.base + PLIC.size * k, PLIC.size)], Lines(SocketIntcs(c, k), PlicIrqs(c)),
             PlicPhandle(c, k))
  }

  /** The harts listed by socket k's APLIC nodes: all of them when there is a single APLIC. */
  function AplicIntcs(c: Config, k: nat): seq<nat>
    requires k < |c.socs|
  {
    if KvmAia(c) then Intcs(c, 0, Cpus(c)) else SocketIntcs(c, k)
  }

  function AplicWindow(mMode: bool, k: nat): Window {
    if mMode then Window(APLIC_M.base + APLIC_M.size * k, APLIC_M.size)
    else Window(APLIC_S.base + APLIC_S.size * k, APLIC_S.size)
  }

  function OneAplic(c: Config, mMode: bool, k: nat): Node
    requires k < |c.socs| && k < XplicSockets(c)
  {
    AplicNode(mMode, k, [AplicWindow(mMode, k)],
              if c.aia == Aplic then Lines(AplicIntcs(c, k), [ExtIrq(mMode)]) else [],
              if c.aia == Aplic then None else Some(ImsicPhandle(c, mMode)),
              if mMode then Some(AplicPhandle(c, false, k)) else None,
              AplicPhandle(c, mMode, k))
  }

  function XplicNodes(c: Config, k: nat): seq<Node>
    requires k < |c.socs| && k < XplicSockets(c)
  {
    if c.aia == NoAia then [OnePlic(c, k)]
    else (if c.accel != Kvm then [OneAplic(c, true, k)] else []) + [OneAplic(c, false, k)]
  }

  function XplicsFrom(c: Config, k: nat): seq<Node>
    requires 1 <= |c.socs| && k <= XplicSockets(c)
    decreases XplicSockets(c) - k
  {
    if k == XplicSockets(c) then [] else XplicsFrom(c, k + 1) + XplicNodes(c, k)
  }

  // ---------- devices ----------

  /** The sockets whose controllers the tree names for virtio and for PCIe interrupts. */
  function VirtioSocket(c: Config): nat {
    if XplicSockets(c) >= 2 then 1 else 0
  }

  function PcieSocket(c: Config): nat {
    if XplicSockets(c) >= 3 then 2 else VirtioSocket(c)
  }

  function IrqCells(c: Config, irq: nat): seq<nat> {
    if c.aia == NoAia then [irq] else [irq, 0x4]
  }

  function VirtioNode(c: Config, i: nat): Node
    requires 1 <= |c.socs|
  {
    Wired(Virtio(i), [Window(VIRTIO.base + i * VIRTIO.size, VIRTIO.size)], XplicPhandle(c, VirtioSocket(c)),
          IrqCells(c, VIRTIO_IRQ + i))
  }

  function VirtioNodes(c: Config): (ns: seq<Node>)
    requires 1 <= |c.socs|
    ensures |ns| == VIRTIO_COUNT
  {
    seq(VIRTIO_COUNT, i requires 0 <= i => VirtioNode(c, i))
  }

  function PcieNode(c: Config): Node
    requires 1 <= |c.socs|
  {
    Pcie([PCIE_ECAM], [PCIE_PIO, PCIE_MMIO, HighPcieWindow(c)],
         if c.aia == AplicImsic then Some(ImsicPhandle(c, false)) else None,
         Table(ROWS, c.aia, XplicPhandle(c, PcieSocket(c))))
  }

  function ResetNodes(c: Config): seq<Node> {
    [TestNode([TEST], LastPhandle(c)), Syscon(true, LastPhandle(c)), Syscon(false, LastPhandle(c))]
  }

  function MmioWired(c: Config, d: Dev, w: Window, irq: nat): Node
    requires 1 <= |c.socs|
  {
    Wired(d, [w], XplicPhandle(c, 0), IrqCells(c, irq))
  }

  function WiredNodes(c: Config): seq<Node>
    requires 1 <= |c.socs|
  {
    [MmioWired(c, Uart, UART0, UART0_IRQ), MmioWired(c, Rtc, RTC, RTC_IRQ),
     MmioWired(c, MmioBus, MMIO_BUS, MMIO_BUS_IRQ)]
  }

  function DeviceNodes(c: Config): seq<Node>
    requires 1 <= |c.socs|
  {
    VirtioNodes(c) + [PcieNode(c)] + ResetNodes(c) + WiredNodes(c)
  }

  function ControllerNodes(c: Config): seq<Node>
    requires 1 <= |c.socs|
  {
    SocketsFrom(c, 0) + ImsicNodes(c) + XplicsFrom(c, 0)
  }

  /** Everything finalize_fdt adds, in order of creation. */
  function Tree(c: Config): seq<Node>
    requires 1 <= |c.socs|
  {
    ControllerNodes(c) + DeviceNodes(c)
  }
}
