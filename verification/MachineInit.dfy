/** aislab_machine_init: the devices a socket loop and a run of fixed constructors realise, and the
    interrupt inputs they are wired to. */
module MachineInit {
  import opened Options
  import opened Board
  import opened Imsic
  import opened AddressSpace

  /** A realised device: where it is, which hart ids it serves, and the APLIC it is a child of. */
  datatype Device = Device(dev: Dev, at: Window, harts: Soc, parent: Option<Dev>)

  /** Output `output` of a device drives input `line` of an interrupt controller. */
  datatype Wire = Wire(dev: Dev, output: nat, chip: Dev, line: nat)

  /** What QEMU answers about a socket's hart ids; a negative number means that it does not know. */
  datatype HartIds = HartIds(contiguous: bool, first: int, count: int)

  datatype Outcome =
    | Built
    | TooManySockets
    | AclintUnavailable
    | Discontinuous(socket: nat)
    | NoHartBase(socket: nat)
    | NoHartCount(socket: nat)

  /** The checks on socket k's hart ids, in order. */
  function SocketVerdict(h: HartIds, k: nat): Outcome {
    if !h.contiguous then Discontinuous(k)
    else if h.first < 0 then NoHartBase(k)
    else if h.count < 0 then NoHartCount(k)
    else Built
  }

  /** The configuration's sockets are those QEMU knows; nothing is said about the others. */
  predicate Describes(ids: seq<HartIds>, c: Config) {
    && |ids| == |c.socs|
    && forall k :: 0 <= k < |ids| && SocketVerdict(ids[k], k) == Built ==> c.socs[k] == Soc(ids[k].first, ids[k].count)
  }

  predicate AllKnown(ids: seq<HartIds>, n: nat) {
    n <= |ids| && forall k :: 0 <= k < n ==> SocketVerdict(ids[k], k) == Built
  }

  /** Socket k is the first whose hart ids are refused, for reason r. */
  predicate FirstRefused(ids: seq<HartIds>, k: nat, r: Outcome) {
    k < |ids| && r == SocketVerdict(ids[k], k) != Built && AllKnown(ids, k)
  }

  /** What the generic machine code and the property setters guarantee before the board is built. */
  predicate Admitted(c: Config) {
    1 <= |c.socs| && Cpus(c) <= CPUS_MAX && c.guests <= MAX_GUESTS && c.ram < 0x1_0000_0000_0000_0000
  }

  // ---------- the devices, as a list ----------

  function TimerParts(c: Config, k: nat): seq<Dev> {
    if AclintAllowed(c) && c.aclint then
      if c.aia == AplicImsic then [Mtimer(k)] else [Swi(k), Mtimer(k), Sswi(k)]
    else if c.accel == Tcg then [Swi(k), Mtimer(k)]
    else []
  }

  function ImsicPart(mMode: bool, k: nat, i: nat): Dev {
    if mMode then ImsicM(k, i) else ImsicS(k, i)
  }

  function ImsicParts(mMode: bool, k: nat, n: nat): seq<Dev> {
    seq(n, i requires 0 <= i => ImsicPart(mMode, k, i))
  }

  function FileParts(c: Config, k: nat): seq<Dev>
    requires k < |c.socs|
  {
    if c.aia != AplicImsic then []
    else (if c.accel != Kvm then ImsicParts(true, k, c.socs[k].numHarts) else [])
         + ImsicParts(false, k, c.socs[k].numHarts)
  }

  function ChipParts(c: Config, k: nat): seq<Dev> {
    if c.aia == NoAia then [PlicDev(k)] else (if c.accel != Kvm then [AplicM(k)] else []) + [AplicS(k)]
  }

  /** The controller of socket k that device wires go to. */
  function ChipOf(c: Config, k: nat): Dev {
    if c.aia == NoAia then PlicDev(k) else if c.accel == Kvm then AplicS(k) else AplicM(k)
  }

  function SocketParts(c: Config, k: nat): seq<Dev>
    requires k < |c.socs|
  {
    TimerParts(c, k) + (FileParts(c, k) + ChipParts(c, k))
  }

  function PartsUpTo(c: Config, k: nat): seq<Dev>
    requires k <= |c.socs|
  {
    if k == 0 then [] else PartsUpTo(c, k - 1) + SocketParts(c, k - 1)
  }

  function VirtioParts(): seq<Dev> {
    seq(VIRTIO_COUNT, i requires 0 <= i => Virtio(i))
  }

  const BEFORE_VIRTIO := [Ram, Mrom, FwCfg, Test]
  const PCIE_WINDOWS := [Ecam, PcieMmio, HighPcie, Pio]
  const PLATFORM := [PlatformBus]
  const MMIO_WIRED := [Uart, Rtc, MmioBus]
  const FLASHES := [Flash(0), Flash(1)]

  function BoardParts(): seq<Dev> {
    BEFORE_VIRTIO + VirtioParts() + PCIE_WINDOWS + PLATFORM + MMIO_WIRED + FLASHES
  }

  function Parts(c: Config): seq<Dev> {
    PartsUpTo(c, |c.socs|) + BoardParts()
  }

  /** The hart ids a device is created for. */
  function HartsOf(c: Config, d: Dev): Soc {
    match d
    case Swi(k) => if k < |c.socs| then c.socs[k] else Soc(0, 0)
    case Mtimer(k) => if k < |c.socs| then c.socs[k] else Soc(0, 0)
    case Sswi(k) => if k < |c.socs| then c.socs[k] else Soc(0, 0)
    case PlicDev(k) => if k < |c.socs| then c.socs[k] else Soc(0, 0)
    case AplicM(k) => if k < |c.socs| && c.aia != AplicImsic then c.socs[k] else Soc(0, 0)
    case AplicS(k) => if k < |c.socs| && c.aia != AplicImsic then c.socs[k] else Soc(0, 0)
    case ImsicM(k, i) => if k < |c.socs| then Soc(c.socs[k].hartBase + i, 1) else Soc(0, 0)
    case ImsicS(k, i) => if k < |c.socs| then Soc(c.socs[k].hartBase + i, 1) else Soc(0, 0)
    case _ => Soc(0, 0)
  }

  function ParentOf(c: Config, d: Dev): Option<Dev> {
    if d.AplicS? && c.accel != Kvm then Some(AplicM(d.socket)) else None
  }

  function Made(c: Config, d: Dev): Device {
    Device(d, WindowOf(c, d), HartsOf(c, d), ParentOf(c, d))
  }

  function AllMade(c: Config, ds: seq<Dev>): seq<Device> {
    seq(|ds|, i requires 0 <= i < |ds| => Made(c, ds[i]))
  }

  lemma MadeJoin(c: Config, a: seq<Dev>, b: seq<Dev>)
    ensures AllMade(c, a + b) == AllMade(c, a) + AllMade(c, b)
  {
  }

  lemma BoardMade(c: Config)
    ensures AllMade(c, BoardParts())
            == AllMade(c, BEFORE_VIRTIO) + AllMade(c, VirtioParts()) + AllMade(c, PCIE_WINDOWS) + AllMade(c, PLATFORM)
               + AllMade(c, MMIO_WIRED) + AllMade(c, FLASHES)
  {
    MadeJoin(c, BEFORE_VIRTIO, VirtioParts());
    MadeJoin(c, BEFORE_VIRTIO + VirtioParts(), PCIE_WINDOWS);
    MadeJoin(c, BEFORE_VIRTIO + VirtioParts() + PCIE_WINDOWS, PLATFORM);
    MadeJoin(c, BEFORE_VIRTIO + VirtioParts() + PCIE_WINDOWS + PLATFORM, MMIO_WIRED);
    MadeJoin(c, BEFORE_VIRTIO + VirtioParts() + PCIE_WINDOWS + PLATFORM + MMIO_WIRED, FLASHES);
  }

  // ---------- the wires, as a list ----------

  function WiredVirtio(c: Config): nat
    requires 1 <= |c.socs|
  {
    if 1 < |c.socs| - 1 then 1 else |c.socs| - 1
  }

  function WiredPcie(c: Config): nat
    requires 1 <= |c.socs|
  {
    if 2 < |c.socs| - 1 then 2 else |c.socs| - 1
  }

  function VirtioWires(chip: Dev): (ws: seq<Wire>)
    ensures |ws| == VIRTIO_COUNT
  {
    seq(VIRTIO_COUNT, i requires 0 <= i => Wire(Virtio(i), 0, chip, VIRTIO_IRQ + i))
  }

  /** Outputs 0, 1, ... of one device on consecutive lines. */
  function Bank(d: Dev, chip: Dev, first: nat, n: nat): (ws: seq<Wire>)
    ensures |ws| == n
  {
    seq(n, i requires 0 <= i => Wire(d, i, chip, first + i))
  }

  function LastWires(chip: Dev): seq<Wire> {
    [Wire(Uart, 0, chip, UART0_IRQ), Wire(Rtc, 0, chip, RTC_IRQ), Wire(MmioBus, 0, chip, MMIO_BUS_IRQ)]
  }

  function AllWires(mmio: Dev, virtio: Dev, pcie: Dev): (ws: seq<Wire>) {
    VirtioWires(virtio) + Bank(Ecam, pcie, PCIE_IRQ, GPEX_NUM_IRQS)
    + Bank(PlatformBus, mmio, PLATFORM_BUS_IRQ, PLATFORM_BUS_NUM_IRQS) + LastWires(mmio)
  }

  function Wires(c: Config): seq<Wire>
    requires 1 <= |c.socs|
  {
    AllWires(ChipOf(c, 0), ChipOf(c, WiredVirtio(c)), ChipOf(c, WiredPcie(c)))
  }

  // ---------- the machine ----------

  class Machine {
    const c: Config
    var ramSize: nat
    var highPcie: Window
    var devices: seq<Device>
    var wires: seq<Wire>

    constructor (c: Config)
      ensures this.c == c && ramSize == c.ram && devices == [] && wires == []
    {
      this.c := c;
      ramSize := c.ram;
      highPcie := Window(0, 0);
      devices := [];
      wires := [];
    }

    method Realise(d: Dev, at: Window, harts: Soc, parent: Option<Dev>)
      modifies this`devices
      ensures devices == old(devices) + [Device(d, at, harts, parent)]
    {
      devices := devices + [Device(d, at, harts, parent)];
    }

    method Map(d: Dev, at: Window)
      modifies this`devices
      ensures devices == old(devices) + [Device(d, at, Soc(0, 0), None)]
    {
      Realise(d, at, Soc(0, 0), None);
    }

    method Connect(d: Dev, output: nat, chip: Dev, line: nat)
      modifies this`wires
      ensures wires == old(wires) + [Wire(d, output, chip, line)]
    {
      wires := wires + [Wire(d, output, chip, line)];
    }

    method CreateTimers(k: nat)
      requires Accepted(c) && k < |c.socs|
      modifies this`devices
      ensures devices == old(devices) + AllMade(c, TimerParts(c, k))
    {
      if AclintAllowed(c) && c.aclint {
        if c.aia == AplicImsic {
          Realise(Mtimer(k), Window(CLINT.base + k * ACLINT_MTIMER_SIZE, ACLINT_MTIMER_SIZE), c.socs[k], None);
        } else {
          Realise(Swi(k), Window(CLINT.base + k * CLINT.size, ACLINT_SWI_SIZE), c.socs[k], None);
          Realise(Mtimer(k), Window(CLINT.base + k * CLINT.size + ACLINT_SWI_SIZE, ACLINT_MTIMER_SIZE),
                  c.socs[k], None);
          Realise(Sswi(k), Window(ACLINT_SSWI.base + k * ACLINT_SSWI.size, ACLINT_SWI_SIZE), c.socs[k], None);
        }
      } else if c.accel == Tcg {
        Realise(Swi(k), Window(CLINT.base + k * CLINT.size, ACLINT_SWI_SIZE), c.socs[k], None);
        Realise(Mtimer(k), Window(CLINT.base + k * CLINT.size + ACLINT_SWI_SIZE, ACLINT_MTIMER_SIZE),
                c.socs[k], None);
      }
    }

    /** One interrupt file per hart, from the socket's base upwards. */
    method CreateImsics(mMode: bool, k: nat, base: nat, guestBits: nat, pages: nat)
      requires Accepted(c) && k < |c.socs|
      requires base == ImsicBase(mMode) && guestBits == GuestBits(c, mMode)
      requires pages == if mMode then 1 else 1 + c.guests
      modifies this`devices
      ensures devices == old(devices) + AllMade(c, ImsicParts(mMode, k, c.socs[k].numHarts))
    {
      var addr := base + k * IMSIC_GROUP_MAX_SIZE;
      var n := c.socs[k].numHarts;
      ghost var parts := ImsicParts(mMode, k, n);
      var i := 0;
      while i < n
        invariant 0 <= i <= n
        invariant devices == old(devices) + AllMade(c, parts)[..i]
      {
        var d := if mMode then ImsicM(k, i) else ImsicS(k, i);
        Realise(d, Window(addr + i * HartSize(guestBits), pages * IMSIC_PAGE_SIZE),
                Soc(c.socs[k].hartBase + i, 1), None);
        assert AllMade(c, parts)[i] == Made(c, d);
        i := i + 1;
      }
    }

    method CreateFiles(k: nat)
      requires Accepted(c) && k < |c.socs|
      modifies this`devices
      ensures devices == old(devices) + AllMade(c, FileParts(c, k))
    {
      if c.aia == AplicImsic {
        var n := c.socs[k].numHarts;
        if c.accel != Kvm {
          CreateImsics(true, k, IMSIC_M_BASE, 0, 1);
          MadeJoin(c, ImsicParts(true, k, n), ImsicParts(false, k, n));
        }
        FieldsFit(c, false);
        var guestBits := NumBits(c.guests + 1);
        CreateImsics(false, k, IMSIC_S_BASE, guestBits, 1 + c.guests);
      }
    }

    method CreateAplics(k: nat) returns (chip: Dev)
      requires Accepted(c) && k < |c.socs| && c.aia != NoAia
      modifies this`devices
      ensures devices == old(devices) + AllMade(c, ChipParts(c, k)) && chip == ChipOf(c, k)
    {
      var harts := if c.aia == AplicImsic then Soc(0, 0) else c.socs[k];
      var parent := None;
      if c.accel != Kvm {
        Realise(AplicM(k), Window(APLIC_M.base + k * APLIC_M.size, APLIC_M.size), harts, None);
        parent := Some(AplicM(k));
      }
      Realise(AplicS(k), Window(APLIC_S.base + k * APLIC_S.size, APLIC_S.size), harts, parent);
      chip := if c.accel == Kvm then AplicS(k) else AplicM(k);
    }

    method CreateChips(k: nat) returns (chip: Dev)
      requires Accepted(c) && k < |c.socs|
      modifies this`devices
      ensures devices == old(devices) + AllMade(c, ChipParts(c, k)) && chip == ChipOf(c, k)
    {
      if c.aia == NoAia {
        Realise(PlicDev(k), Window(PLIC.base + k * PLIC.size, PLIC.size), c.socs[k], None);
        chip := PlicDev(k);
      } else {
        chip := CreateAplics(k);
      }
    }

    /** aislab_create_plic, or aislab_create_aia. */
    method CreateController(k: nat) returns (chip: Dev)
      requires Accepted(c) && k < |c.socs|
      modifies this`devices
      ensures devices == old(devices) + AllMade(c, FileParts(c, k) + ChipParts(c, k)) && chip == ChipOf(c, k)
    {
      CreateFiles(k);
      chip := CreateChips(k);
      MadeJoin(c, FileParts(c, k), ChipParts(c, k));
    }

    method CheckHartIds(h: HartIds, k: nat) returns (r: Outcome)
      ensures r == SocketVerdict(h, k)
    {
      if !h.contiguous {
        return Discontinuous(k);
      }
      if h.first < 0 {
        return NoHartBase(k);
      }
      if h.count < 0 {
        return NoHartCount(k);
      }
      r := Built;
    }

    method CreateSocket(k: nat) returns (chip: Dev)
      requires Accepted(c) && k < |c.socs|
      modifies this`devices
      ensures devices == old(devices) + AllMade(c, SocketParts(c, k)) && chip == ChipOf(c, k)
    {
      CreateTimers(k);
      chip := CreateController(k);
      MadeJoin(c, TimerParts(c, k), FileParts(c, k) + ChipParts(c, k));
    }

    /** Which sockets' controllers device interrupts go to, as far as the first `n` sockets settle it. */
    predicate Settled(n: nat, mmio: Dev, virtio: Dev, pcie: Dev) {
      n >= 1 ==> mmio == ChipOf(c, 0) && virtio == ChipOf(c, if n >= 2 then 1 else 0)
                 && pcie == ChipOf(c, if n >= 3 then 2 else n - 1)
    }

    method Settle(i: nat, chip: Dev, mmio0: Dev, virtio0: Dev, pcie0: Dev) returns (mmio: Dev, virtio: Dev, pcie: Dev)
      requires chip == ChipOf(c, i) && Settled(i, mmio0, virtio0, pcie0)
      ensures Settled(i + 1, mmio, virtio, pcie)
    {
      mmio, virtio, pcie := mmio0, virtio0, pcie0;
      if i == 0 {
        mmio, virtio, pcie := chip, chip, chip;
      }
      if i == 1 {
        virtio, pcie := chip, chip;
      }
      if i == 2 {
        pcie := chip;
      }
    }

    /** One socket, if its hart ids are known. */
    method TrySocket(h: HartIds, k: nat) returns (r: Outcome, chip: Dev)
      requires Accepted(c) && k < |c.socs| && devices == AllMade(c, PartsUpTo(c, k))
      modifies this`devices
      ensures r == SocketVerdict(h, k)
      ensures r == Built ==> devices == AllMade(c, PartsUpTo(c, k + 1)) && chip == ChipOf(c, k)
      ensures r != Built ==> devices == old(devices)
    {
      chip := PlicDev(k);
      r := CheckHartIds(h, k);
      if r == Built {
        chip := CreateSocket(k);
        MadeJoin(c, PartsUpTo(c, k), SocketParts(c, k));
        assert PartsUpTo(c, k + 1) == PartsUpTo(c, k) + SocketParts(c, k);
      }
    }

    /** One turn of the socket loop. */
    method NextSocket(h: HartIds, k: nat, mmio0: Dev, virtio0: Dev, pcie0: Dev)
      returns (r: Outcome, mmio: Dev, virtio: Dev, pcie: Dev)
      requires Accepted(c) && k < |c.socs| && devices == AllMade(c, PartsUpTo(c, k))
      requires Settled(k, mmio0, virtio0, pcie0)
      modifies this`devices
      ensures r == SocketVerdict(h, k)
      ensures r == Built ==> devices == AllMade(c, PartsUpTo(c, k + 1)) && Settled(k + 1, mmio, virtio, pcie)
      ensures r != Built ==> devices == old(devices)
    {
      var chip;
      r, chip := TrySocket(h, k);
      if r == Built {
        mmio, virtio, pcie := Settle(k, chip, mmio0, virtio0, pcie0);
      } else {
        mmio, virtio, pcie := mmio0, virtio0, pcie0;
      }
    }

    /** The socket loop, which also settles where device interrupts go. */
    method CreateSockets(ids: seq<HartIds>) returns (r: Outcome, done: nat, mmio: Dev, virtio: Dev, pcie: Dev)
      requires Accepted(c) && devices == [] && Describes(ids, c)
      modifies this`devices
      ensures done <= |c.socs| && devices == AllMade(c, PartsUpTo(c, done))
      ensures if r == Built then done == |ids| && AllKnown(ids, |ids|) else FirstRefused(ids, done, r)
      ensures r == Built ==> Settled(|c.socs|, mmio, virtio, pcie)
    {
      r, done, mmio, virtio, pcie := Built, 0, PlicDev(0), PlicDev(0), PlicDev(0);
      while done < |c.socs|
        invariant 0 <= done <= |c.socs| && r == Built && AllKnown(ids, done)
        invariant devices == AllMade(c, PartsUpTo(c, done))
        invariant Settled(done, mmio, virtio, pcie)
      {
        r, mmio, virtio, pcie := NextSocket(ids[done], done, mmio, virtio, pcie);
        if r != Built {
          return;
        }
        done := done + 1;
      }
    }

    lemma SettledAll(mmio: Dev, virtio: Dev, pcie: Dev)
      requires Accepted(c) && Settled(|c.socs|, mmio, virtio, pcie)
      ensures mmio == ChipOf(c, 0) && virtio == ChipOf(c, WiredVirtio(c)) && pcie == ChipOf(c, WiredPcie(c))
    {
    }

    /** The 10 GiB limit of 32-bit harts, and where the high PCIe window goes. */
    method PlaceHighPcie()
      requires Accepted(c) && ramSize == c.ram
      modifies this`ramSize, this`highPcie
      ensures ramSize == RamSize(c) && highPcie == HighPcieWindow(c)
    {
      if c.rv32 {
        if ramSize > 10 * GIB {
          ramSize := 10 * GIB;
        }
        highPcie := HIGH_PCIE_32;
      } else {
        highPcie := Window((DRAM_BASE + ramSize) % 0x1_0000_0000_0000_0000, HIGH_PCIE_64_SIZE);
        highPcie := highPcie.(base := RoundUp64(highPcie.base));
      }
    }

    method CreateVirtio(chip: Dev)
      modifies this`devices, this`wires
      ensures devices == old(devices) + AllMade(c, VirtioParts()) && wires == old(wires) + VirtioWires(chip)
    {
      var i := 0;
      while i < VIRTIO_COUNT
        invariant 0 <= i <= VIRTIO_COUNT
        invariant devices == old(devices) + AllMade(c, VirtioParts())[..i]
        invariant wires == old(wires) + VirtioWires(chip)[..i]
      {
        Map(Virtio(i), Window(VIRTIO.base + i * VIRTIO.size, VIRTIO.size));
        Connect(Virtio(i), 0, chip, VIRTIO_IRQ + i);
        i := i + 1;
      }
    }

    method ConnectBank(d: Dev, chip: Dev, first: nat, n: nat)
      modifies this`wires
      ensures wires == old(wires) + Bank(d, chip, first, n)
    {
      var i := 0;
      while i < n
        invariant 0 <= i <= n
        invariant wires == old(wires) + Bank(d, chip, first, n)[..i]
      {
        Connect(d, i, chip, first + i);
        i := i + 1;
      }
    }

    /** gpex_pcie_init */
    method CreatePcie(pcie: Dev)
      requires highPcie == HighPcieWindow(c)
      modifies this`devices, this`wires
      ensures devices == old(devices) + AllMade(c, PCIE_WINDOWS)
      ensures wires == old(wires) + Bank(Ecam, pcie, PCIE_IRQ, GPEX_NUM_IRQS)
    {
      Map(Ecam, PCIE_ECAM);
      Map(PcieMmio, PCIE_MMIO);
      Map(HighPcie, highPcie);
      Map(Pio, PCIE_PIO);
      ConnectBank(Ecam, pcie, PCIE_IRQ, GPEX_NUM_IRQS);
    }

    method CreatePlatformBus(mmio: Dev)
      modifies this`devices, this`wires
      ensures devices == old(devices) + AllMade(c, PLATFORM)
      ensures wires == old(wires) + Bank(PlatformBus, mmio, PLATFORM_BUS_IRQ, PLATFORM_BUS_NUM_IRQS)
    {
      ConnectBank(PlatformBus, mmio, PLATFORM_BUS_IRQ, PLATFORM_BUS_NUM_IRQS);
      Map(PlatformBus, PLATFORM_BUS);
    }

    method CreateFlashes()
      modifies this`devices
      ensures devices == old(devices) + AllMade(c, FLASHES)
    {
      var flashSize := FLASH.size / 2;
      Map(Flash(0), Window(FLASH.base, flashSize));
      Map(Flash(1), Window(FLASH.base + flashSize, flashSize));
    }

    method CreateMmioWired(mmio: Dev)
      modifies this`devices, this`wires
      ensures devices == old(devices) + AllMade(c, MMIO_WIRED) && wires == old(wires) + LastWires(mmio)
    {
      Map(Uart, UART0);
      Connect(Uart, 0, mmio, UART0_IRQ);
      Map(Rtc, RTC);
      Connect(Rtc, 0, mmio, RTC_IRQ);
      Map(MmioBus, MMIO_BUS);
      Connect(MmioBus, 0, mmio, MMIO_BUS_IRQ);
    }

    /** RAM is mapped as the region allocated before, whatever ramSize has become. */
    method CreateFirst()
      modifies this`devices
      ensures devices == old(devices) + AllMade(c, BEFORE_VIRTIO)
    {
      Map(Ram, Window(DRAM_BASE, c.ram));
      Map(Mrom, MROM);
      Map(FwCfg, FW_CFG);
      Map(Test, TEST);
    }

    /** Everything outside the socket loop. */
    method CreateBoard(mmio: Dev, virtio: Dev, pcie: Dev)
      requires highPcie == HighPcieWindow(c)
      modifies this`devices, this`wires
      ensures devices == old(devices) + AllMade(c, BoardParts())
      ensures wires == old(wires) + AllWires(mmio, virtio, pcie)
    {
      CreateFirst();
      CreateVirtio(virtio);
      CreatePcie(pcie);
      CreatePlatformBus(mmio);
      CreateMmioWired(mmio);
      CreateFlashes();
      BoardMade(c);
    }

    method Build(ids: seq<HartIds>) returns (r: Outcome, done: nat)
      requires Accepted(c) && ramSize == c.ram && devices == [] && wires == [] && Describes(ids, c)
      modifies this
      ensures if r == Built then done == |ids| && AllKnown(ids, |ids|) else FirstRefused(ids, done, r)
      ensures r == Built ==> devices == AllMade(c, Parts(c)) && wires == Wires(c) && ramSize == RamSize(c)
      ensures r != Built ==> devices == AllMade(c, PartsUpTo(c, done)) && wires == []
    {
      var mmio, virtio, pcie;
      r, done, mmio, virtio, pcie := CreateSockets(ids);
      if r == Built {
        SettledAll(mmio, virtio, pcie);
        PlaceHighPcie();
        CreateBoard(mmio, virtio, pcie);
        MadeJoin(c, PartsUpTo(c, |c.socs|), BoardParts());
      }
    }

    /** aislab_machine_init: refused by its two limit checks, in that order, with nothing built, or at the first
        socket whose hart ids are refused, with the sockets before it built; else the devices and wires of the
        closed-form lists. */
    method Init(ids: seq<HartIds>) returns (r: Outcome, done: nat)
      requires Admitted(c) && ramSize == c.ram && devices == [] && wires == [] && Describes(ids, c)
      modifies this
      ensures r == TooManySockets <==> |c.socs| > 4
      ensures r == AclintUnavailable <==> |c.socs| <= 4 && c.aclint && c.accel == Kvm
      ensures r == Built <==> Accepted(c) && AllKnown(ids, |ids|)
      ensures Accepted(c) && r != Built ==> FirstRefused(ids, done, r)
      ensures r == Built ==> devices == AllMade(c, Parts(c)) && wires == Wires(c) && ramSize == RamSize(c)
      ensures Accepted(c) && r != Built ==> devices == AllMade(c, PartsUpTo(c, done)) && wires == []
      ensures !Accepted(c) ==> devices == [] && wires == []
    {
      done := 0;
      if SOCKETS_MAX < |c.socs| {
        return TooManySockets, 0;
      }
      if !AclintAllowed(c) && c.aclint {
        return AclintUnavailable, 0;
      }
      r, done := Build(ids);
    }
  }
}
