/** The device tree against the machine: which realised device each register region describes, where, for
    which harts, and whether interrupts go where the tree says. */
module TreeMatchesMachine {
  import opened Options
  import opened Arithmetic
  import opened Board
  import opened Imsic
  import opened AddressSpace
  import opened PcieIrqMap
  import opened DeviceTree
  import opened TreeWalk
  import opened TreeProperties
  import opened MachineInit
  import opened MachineTheorems

  // ---------- reading a node ----------

  function Timers(kind: TimerKind, k: nat, reg: seq<Window>, d: Dev): Option<Window> {
    match kind
    case Clint =>
      if |reg| != 1 || reg[0].size < ACLINT_SWI_SIZE then None
      else if d == Swi(k) then Some(Window(reg[0].base, ACLINT_SWI_SIZE))
      else if d == Mtimer(k) then Some(Window(reg[0].base + ACLINT_SWI_SIZE, reg[0].size - ACLINT_SWI_SIZE))
      else None
    case Mswi => if |reg| == 1 && d == Swi(k) then Some(reg[0]) else None
    case SswiTimer => if |reg| == 1 && d == Sswi(k) then Some(reg[0]) else None
    case MtimerTimer =>
      // mtimecmp registers first in memory, mtime right after them
      if |reg| == 2 && d == Mtimer(k) && reg[1].base + reg[1].size == reg[0].base
      then Some(Window(reg[1].base, reg[1].size + reg[0].size)) else None
  }

  /** Hart i's slot of a socket's IMSIC region, if the region holds that many. */
  function Slot(reg: seq<Window>, guestBits: nat, k: nat, i: nat): Option<Window> {
    if k < |reg| && (i + 1) * HartSize(guestBits) <= reg[k].size
    then Some(Window(reg[k].base + i * HartSize(guestBits), HartSize(guestBits))) else None
  }

  /** The region node n describes for device d, read by the bindings of n's kind. */
  function Region(n: Node, d: Dev): Option<Window> {
    match n
    case Timer(kind, k, reg, _) => Timers(kind, k, reg, d)
    case PlicNode(k, reg, _, _) => if |reg| == 1 && d == PlicDev(k) then Some(reg[0]) else None
    case AplicNode(m, k, reg, _, _, _, _) =>
      if |reg| == 1 && d == (if m then AplicM(k) else AplicS(k)) then Some(reg[0]) else None
    case ImsicNode(m, reg, _, index, _) =>
      if m && d.ImsicM? then Slot(reg, Announced(index, 0).guest, d.socket, d.hart)
      else if !m && d.ImsicS? then Slot(reg, Announced(index, 0).guest, d.socket, d.hart)
      else None
    case Wired(dev, reg, _, _) => if |reg| == 1 && d == dev then Some(reg[0]) else None
    case Pcie(reg, ranges, _, _) =>
      if |reg| != 1 || |ranges| != 3 then None
      else if d == Ecam then Some(reg[0])
      else if d == Pio then Some(ranges[0])
      else if d == PcieMmio then Some(ranges[1])
      else if d == HighPcie then Some(ranges[2])
      else None
    case TestNode(reg, _) => if |reg| == 1 && d == Test then Some(reg[0]) else None
    case _ => None
  }

  /** The node that should describe a device. */
  function NodeFor(c: Config, d: Dev): Option<Node>
    requires 1 <= |c.socs|
  {
    if !Present(c, d) then None
    else
      match d
      case Swi(k) => Some(if c.aclint then MswiNode(c, k) else ClintNode(c, k))
      case Mtimer(k) => Some(if c.aclint then MtimerNode(c, k) else ClintNode(c, k))
      case Sswi(k) => Some(SswiNode(c, k))
      case PlicDev(k) => Some(OnePlic(c, k))
      case AplicM(k) => Some(OneAplic(c, true, k))
      case AplicS(k) => if k < XplicSockets(c) then Some(OneAplic(c, false, k)) else None
      case ImsicM(_, _) => Some(OneImsic(c, true))
      case ImsicS(_, _) => Some(OneImsic(c, false))
      case Virtio(i) => Some(VirtioNode(c, i))
      case Ecam => Some(PcieNode(c))
      case PcieMmio => Some(PcieNode(c))
      case HighPcie => Some(PcieNode(c))
      case Pio => Some(PcieNode(c))
      case Test => Some(TestNode([TEST], LastPhandle(c)))
      case Uart => Some(MmioWired(c, Uart, UART0, UART0_IRQ))
      case Rtc => Some(MmioWired(c, Rtc, RTC, RTC_IRQ))
      case MmioBus => Some(MmioWired(c, MmioBus, MMIO_BUS, MMIO_BUS_IRQ))
      case _ => None
  }

  // ---------- the tree holds no other description ----------

  lemma {:induction false} CpuKinds(c: Config, k: nat, i: nat, n: Node)
    requires k < |c.socs| && i <= c.socs[k].numHarts && n in CpusFrom(c, k, i)
    ensures n.Cpu? || n.CpuIntc? || n.Core?
    decreases c.socs[k].numHarts - i
  {
    if i == c.socs[k].numHarts || n in HartNodes(c, k, i) {
    } else {
      CpuKinds(c, k, i + 1, n);
    }
  }

  lemma FromSocket(c: Config, n: Node) returns (k: nat)
    requires n in SocketsFrom(c, 0)
    ensures k < |c.socs| && n in SocketNodes(c, k)
  {
    SocketsAreFlat(c, 0);
    k := FromFlatDown(SocketLists(c), 0, n);
  }

  lemma FromXplic(c: Config, n: Node) returns (k: nat)
    requires 1 <= |c.socs| && n in XplicsFrom(c, 0)
    ensures k < XplicSockets(c) && n in XplicNodes(c, k)
  {
    XplicsAreFlat(c, 0);
    k := FromFlatDown(XplicLists(c), 0, n);
  }

  lemma AclintOnly(c: Config, k: nat, n: Node, d: Dev)
    requires Accepted(c) && k < |c.socs| && c.aclint && n in TimerNodes(c, k) && Region(n, d).Some?
    ensures NodeFor(c, d) == Some(n)
  {
    assert n == MtimerNode(c, k) || (c.aia != AplicImsic && (n == MswiNode(c, k) || n == SswiNode(c, k)));
    assert d == if n.kind == Mswi then Swi(k) else if n.kind == MtimerTimer then Mtimer(k) else Sswi(k);
  }

  lemma ClintOnly(c: Config, k: nat, n: Node, d: Dev)
    requires Accepted(c) && k < |c.socs| && !c.aclint && n in TimerNodes(c, k) && Region(n, d).Some?
    ensures NodeFor(c, d) == Some(n)
  {
    assert n == ClintNode(c, k) && c.accel == Tcg;
    assert d == Swi(k) || d == Mtimer(k);
  }

  lemma TimerOnly(c: Config, k: nat, n: Node, d: Dev)
    requires Accepted(c) && k < |c.socs| && n in TimerNodes(c, k) && Region(n, d).Some?
    ensures NodeFor(c, d) == Some(n)
  {
    if c.aclint { AclintOnly(c, k, n, d); } else { ClintOnly(c, k, n, d); }
  }

  lemma SocketOnly(c: Config, n: Node, d: Dev)
    requires Accepted(c) && n in SocketsFrom(c, 0) && Region(n, d).Some?
    ensures NodeFor(c, d) == Some(n)
  {
    var k := FromSocket(c, n);
    if n in CpusFrom(c, k, 0) {
      CpuKinds(c, k, 0, n);
      assert false;
    }
    assert n in TimerNodes(c, k);
    TimerOnly(c, k, n, d);
  }

  lemma NodeForPlic(c: Config, k: nat)
    requires k < |c.socs| && c.aia == NoAia
    ensures k < XplicSockets(c) && NodeFor(c, PlicDev(k)) == Some(OnePlic(c, k))
  {
  }

  lemma NodeForAplicM(c: Config, k: nat)
    requires 1 <= |c.socs| && k < XplicSockets(c) && c.aia != NoAia && c.accel != Kvm
    ensures NodeFor(c, AplicM(k)) == Some(OneAplic(c, true, k))
  {
  }

  lemma NodeForAplicS(c: Config, k: nat)
    requires 1 <= |c.socs| && k < XplicSockets(c) && c.aia != NoAia
    ensures NodeFor(c, AplicS(k)) == Some(OneAplic(c, false, k))
  {
  }

  lemma SocketXplicOnly(c: Config, k: nat, n: Node, d: Dev)
    requires Accepted(c) && k < XplicSockets(c) && n in XplicNodes(c, k) && Region(n, d).Some?
    ensures NodeFor(c, d) == Some(n)
  {
    if c.aia == NoAia {
      assert n == OnePlic(c, k) && d == PlicDev(k);
      NodeForPlic(c, k);
    } else if n.mMode {
      assert n == OneAplic(c, true, k) && d == AplicM(k);
      NodeForAplicM(c, k);
    } else {
      assert n == OneAplic(c, false, k) && d == AplicS(k);
      NodeForAplicS(c, k);
    }
  }

  lemma XplicOnly(c: Config, n: Node, d: Dev)
    requires Accepted(c) && n in XplicsFrom(c, 0) && Region(n, d).Some?
    ensures NodeFor(c, d) == Some(n)
  {
    var k := FromXplic(c, n);
    SocketXplicOnly(c, k, n, d);
  }

  lemma FitsMeansBelow(i: nat, harts: nat, h: nat)
    requires 0 < h
    ensures (i + 1) * h <= h * harts <==> i < harts
  {
    if i < harts {
      AtMostTimes(i + 1, harts, h);
    } else {
      AtMostTimes(harts, i, h);
    }
  }

  /** Slots of the described region are exactly the slots of harts the socket has. */
  lemma SlotExact(c: Config, mMode: bool, k: nat, i: nat)
    ensures Slot(ImsicRegs(c, mMode), GuestBits(c, mMode), k, i)
            == if k < |c.socs| && i < c.socs[k].numHarts
               then Some(Window(PageAddress(ImsicBase(mMode), GuestBits(c, mMode), k, i, 0),
                                HartSize(GuestBits(c, mMode))))
               else None
  {
    if k < |c.socs| {
      FitsMeansBelow(i, c.socs[k].numHarts, HartSize(GuestBits(c, mMode)));
    }
  }

  lemma ImsicOnly(c: Config, n: Node, d: Dev)
    requires Accepted(c) && n in ImsicNodes(c) && Region(n, d).Some?
    ensures NodeFor(c, d) == Some(n)
  {
    SlotExact(c, n.mMode, d.socket, d.hart);
  }

  lemma VirtioOnly(c: Config, n: Node, d: Dev)
    requires Accepted(c) && n in VirtioNodes(c) && Region(n, d).Some?
    ensures NodeFor(c, d) == Some(n)
  {
    var i :| 0 <= i < VIRTIO_COUNT && VirtioNodes(c)[i] == n;
    assert n == VirtioNode(c, i) && d == Virtio(i);
  }

  lemma PcieOnly(c: Config, d: Dev)
    requires Accepted(c) && Region(PcieNode(c), d).Some?
    ensures NodeFor(c, d) == Some(PcieNode(c))
  {
    assert d == Ecam || d == Pio || d == PcieMmio || d == HighPcie;
  }

  lemma ResetOnly(c: Config, n: Node, d: Dev)
    requires Accepted(c) && n in ResetNodes(c) && Region(n, d).Some?
    ensures NodeFor(c, d) == Some(n)
  {
    assert d == Test;
  }

  lemma WiredOnly(c: Config, n: Node, d: Dev)
    requires Accepted(c) && n in WiredNodes(c) && Region(n, d).Some?
    ensures NodeFor(c, d) == Some(n)
  {
    assert d == n.dev && (d == Uart || d == Rtc || d == MmioBus);
  }

  lemma DeviceOnly(c: Config, n: Node, d: Dev)
    requires Accepted(c) && n in DeviceNodes(c) && Region(n, d).Some?
    ensures NodeFor(c, d) == Some(n)
  {
    if n in VirtioNodes(c) {
      VirtioOnly(c, n, d);
    } else if n in ResetNodes(c) {
      ResetOnly(c, n, d);
    } else if n in WiredNodes(c) {
      WiredOnly(c, n, d);
    } else {
      assert n == PcieNode(c);
      PcieOnly(c, d);
    }
  }

  lemma TreeOnly(c: Config, n: Node, d: Dev)
    requires Accepted(c) && n in Tree(c) && Region(n, d).Some?
    ensures NodeFor(c, d) == Some(n)
  {
    if n in SocketsFrom(c, 0) {
      SocketOnly(c, n, d);
    } else if n in ImsicNodes(c) {
      ImsicOnly(c, n, d);
    } else if n in XplicsFrom(c, 0) {
      XplicOnly(c, n, d);
    } else {
      DeviceOnly(c, n, d);
    }
  }

  // ---------- every device is described, where it is ----------

  lemma TimerInTree(c: Config, k: nat, n: Node)
    requires k < |c.socs| && n in TimerNodes(c, k)
    ensures n in Tree(c)
  {
    InEither([Cluster(k)] + CpusFrom(c, k, 0) + [Memory(k)], TimerNodes(c, k), n);
    SocketInTree(c, k, n);
  }

  lemma AclintInNodes(c: Config, d: Dev)
    requires Accepted(c) && Present(c, d) && IsTimer(d) && c.aclint
    ensures NodeFor(c, d).Some? && NodeFor(c, d).value in TimerNodes(c, d.socket)
  {
    var k := d.socket;
    if c.aia == AplicImsic {
      assert TimerNodes(c, k) == [MtimerNode(c, k)];
    } else {
      assert TimerNodes(c, k) == [MswiNode(c, k)] + [MtimerNode(c, k)] + [SswiNode(c, k)];
    }
  }

  lemma TimerInNodes(c: Config, d: Dev)
    requires Accepted(c) && Present(c, d) && IsTimer(d)
    ensures NodeFor(c, d).Some? && NodeFor(c, d).value in TimerNodes(c, d.socket)
  {
    if c.aclint {
      AclintInNodes(c, d);
    } else {
      assert TimerNodes(c, d.socket) == [ClintNode(c, d.socket)];
    }
  }

  lemma ChipInNodes(c: Config, d: Dev)
    requires Accepted(c) && Present(c, d) && (d.PlicDev? || d.AplicM? || d.AplicS?) && d.socket < XplicSockets(c)
    ensures NodeFor(c, d).Some? && NodeFor(c, d).value in XplicNodes(c, d.socket)
  {
    if d.PlicDev? {
      assert OnePlic(c, d.socket) in XplicNodes(c, d.socket);
    } else {
      AplicInNodes(c, d.AplicM?, d.socket);
    }
  }

  lemma DeviceInTree(c: Config, n: Node)
    requires 1 <= |c.socs| && (n in VirtioNodes(c) || n == PcieNode(c) || n in ResetNodes(c) || n in WiredNodes(c))
    ensures n in Tree(c)
  {
    InEither(VirtioNodes(c), [PcieNode(c)], n);
    InEither(VirtioNodes(c) + [PcieNode(c)], ResetNodes(c), n);
    InEither(VirtioNodes(c) + [PcieNode(c)] + ResetNodes(c), WiredNodes(c), n);
    InEither(ControllerNodes(c), DeviceNodes(c), n);
  }

  lemma BoardInNodes(c: Config, d: Dev)
    requires Accepted(c) && NodeFor(c, d).Some? && Home(d) == None
    ensures var n := NodeFor(c, d).value;
            n in VirtioNodes(c) || n == PcieNode(c) || n in ResetNodes(c) || n in WiredNodes(c)
  {
    if d.Virtio? {
      assert VirtioNodes(c)[d.index] == NodeFor(c, d).value;
    }
  }

  lemma NodeInTree(c: Config, d: Dev)
    requires Accepted(c) && NodeFor(c, d).Some?
    ensures NodeFor(c, d).value in Tree(c)
  {
    var n := NodeFor(c, d).value;
    if IsTimer(d) {
      TimerInNodes(c, d);
      TimerInTree(c, d.socket, n);
    } else if IsFile(d) {
      ImsicResolves(c, d.ImsicM?);
    } else if d.PlicDev? || d.AplicM? || d.AplicS? {
      ChipInNodes(c, d);
      XplicInTree(c, d.socket, n);
    } else {
      BoardInNodes(c, d);
      DeviceInTree(c, n);
    }
  }

  lemma TimerRegion(c: Config, d: Dev)
    requires Accepted(c) && Present(c, d) && IsTimer(d)
    ensures NodeFor(c, d).Some? && Region(NodeFor(c, d).value, d) == Some(SpanOf(c, d))
  {
  }

  lemma SlotStart(c: Config, mMode: bool, k: nat, i: nat)
    ensures WindowOf(c, ImsicPart(mMode, k, i)).base == PageAddress(ImsicBase(mMode), GuestBits(c, mMode), k, i, 0)
    ensures WindowOf(c, ImsicPart(mMode, k, i)).size == (if mMode then 1 else 1 + c.guests) * IMSIC_PAGE_SIZE
  {
  }

  lemma FileSpan(c: Config, mMode: bool, k: nat, i: nat)
    ensures SpanOf(c, ImsicPart(mMode, k, i))
            == Window(PageAddress(ImsicBase(mMode), GuestBits(c, mMode), k, i, 0), HartSize(GuestBits(c, mMode)))
  {
    Pow2Values();
    SlotStart(c, mMode, k, i);
  }

  lemma FileRegion(c: Config, mMode: bool, k: nat, i: nat)
    requires Present(c, ImsicPart(mMode, k, i))
    ensures Region(OneImsic(c, mMode), ImsicPart(mMode, k, i)) == Some(SpanOf(c, ImsicPart(mMode, k, i)))
  {
    SlotExact(c, mMode, k, i);
    FileSpan(c, mMode, k, i);
    assert Announced(IndexOf(c, mMode), 0).guest == GuestBits(c, mMode);
  }

  lemma PlicRegion(c: Config, k: nat)
    requires k < |c.socs| && k < XplicSockets(c)
    ensures Region(OnePlic(c, k), PlicDev(k)) == Some(SpanOf(c, PlicDev(k)))
  {
  }

  lemma RegionOfAplic(n: Node, k: nat, w: Window)
    requires n.AplicNode? && n.socket == k && n.reg == [w]
    ensures Region(n, if n.mMode then AplicM(k) else AplicS(k)) == Some(w)
  {
  }

  lemma AplicRegion(c: Config, mMode: bool, k: nat)
    requires k < |c.socs| && k < XplicSockets(c)
    ensures var d := if mMode then AplicM(k) else AplicS(k); Region(OneAplic(c, mMode, k), d) == Some(SpanOf(c, d))
  {
    var w := AplicWindow(mMode, k);
    AplicSpan(c, mMode, k);
    RegionOfAplic(OneAplic(c, mMode, k), k, w);
  }

  lemma AplicSpan(c: Config, mMode: bool, k: nat)
    ensures SpanOf(c, if mMode then AplicM(k) else AplicS(k)) == AplicWindow(mMode, k)
  {
  }

  lemma ChipRegion(c: Config, d: Dev)
    requires Accepted(c) && NodeFor(c, d).Some? && (d.PlicDev? || d.AplicM? || d.AplicS?)
    ensures Region(NodeFor(c, d).value, d) == Some(SpanOf(c, d))
  {
    var k := d.socket;
    if d.PlicDev? {
      NodeForPlic(c, k);
      PlicRegion(c, k);
    } else if d.AplicM? {
      NodeForAplicM(c, k);
      AplicRegion(c, true, k);
    } else {
      NodeForAplicS(c, k);
      AplicRegion(c, false, k);
    }
  }

  lemma PcieRegion(c: Config, d: Dev)
    requires Accepted(c) && (d == Ecam || d == Pio || d == PcieMmio || d == HighPcie)
    ensures Region(PcieNode(c), d) == Some(SpanOf(c, d))
  {
  }

  lemma WiredRegion(c: Config, d: Dev)
    requires Accepted(c) && NodeFor(c, d).Some? && (d.Virtio? || d.Uart? || d.Rtc? || d.MmioBus? || d.Test?)
    ensures Region(NodeFor(c, d).value, d) == Some(SpanOf(c, d))
  {
  }

  lemma NodeDescribes(c: Config, d: Dev)
    requires Accepted(c) && NodeFor(c, d).Some?
    ensures Region(NodeFor(c, d).value, d) == Some(SpanOf(c, d))
  {
    if IsTimer(d) {
      TimerRegion(c, d);
    } else if IsFile(d) {
      FileRegion(c, d.ImsicM?, d.socket, d.hart);
    } else if d.PlicDev? || d.AplicM? || d.AplicS? {
      ChipRegion(c, d);
    } else if d.Virtio? || d.Uart? || d.Rtc? || d.MmioBus? || d.Test? {
      WiredRegion(c, d);
    } else {
      PcieRegion(c, d);
    }
  }

  /** Whatever the tree describes is realised, at the base the tree gives, inside the span it gives. */
  lemma DescribedIsRealised(c: Config, n: Node, d: Dev)
    requires Accepted(c) && n in Tree(c) && Region(n, d).Some?
    ensures d in Parts(c) && Region(n, d) == Some(SpanOf(c, d))
    ensures Region(n, d).value.base == WindowOf(c, d).base && WindowOf(c, d).size <= Region(n, d).value.size
  {
    TreeOnly(c, n, d);
    NodeDescribes(c, d);
    PartsExact(c, d);
    SpanCovers(c, d);
  }

  lemma DescribedApart(c: Config, m: Node, n: Node, d: Dev, e: Dev)
    requires Accepted(c) && HighPcieWindow(c).base != 0 && m in Tree(c) && n in Tree(c)
    requires Region(m, d).Some? && Region(n, e).Some? && d != e
    ensures Apart(Region(m, d).value, Region(n, e).value)
  {
    DescribedIsRealised(c, m, d);
    DescribedIsRealised(c, n, e);
    PartsExact(c, d);
    PartsExact(c, e);
    TreeOnly(c, m, d);
    TreeOnly(c, n, e);
    SpansApart(c, d, e);
  }

  /** The regions that the tree describes, which may be longer than the realised ones, are pairwise disjoint
      exactly when the high PCIe window has not wrapped to address 0; it has not if RAM fits. */
  lemma AllDescribedApartIff(c: Config)
    requires Accepted(c)
    ensures RamFits(c) ==> HighPcieWindow(c).base != 0
    ensures HighPcieWindow(c).base != 0
            <==> forall m, n, d, e :: m in Tree(c) && n in Tree(c) && Region(m, d).Some? && Region(n, e).Some? && d != e
                                      ==> Apart(Region(m, d).value, Region(n, e).value)
  {
    HighPcieZeroOrHigh(c);
    if HighPcieWindow(c).base != 0 {
      forall m, n, d, e | m in Tree(c) && n in Tree(c) && Region(m, d).Some? && Region(n, e).Some? && d != e
        ensures Apart(Region(m, d).value, Region(n, e).value)
      {
        DescribedApart(c, m, n, d, e);
      }
    } else {
      WrappedOverTest(c);
    }
  }

  lemma WrappedOverTest(c: Config)
    requires Accepted(c) && HighPcieWindow(c).base == 0
    ensures exists m, n, d, e :: m in Tree(c) && n in Tree(c) && Region(m, d).Some? && Region(n, e).Some? && d != e
                                 && !Apart(Region(m, d).value, Region(n, e).value)
  {
    var m, n := PcieNode(c), TestNode([TEST], LastPhandle(c));
    assert n == ResetNodes(c)[0];
    DeviceInTree(c, m);
    DeviceInTree(c, n);
    TestOverlapped(c, n);
  }

  lemma TestOverlapped(c: Config, n: Node)
    requires 1 <= |c.socs| && HighPcieWindow(c).base == 0 && n == TestNode([TEST], LastPhandle(c))
    ensures Region(PcieNode(c), HighPcie).Some? && Region(n, Test).Some?
    ensures !Apart(Region(PcieNode(c), HighPcie).value, Region(n, Test).value)
  {
  }

  /** Apart from timers and guest files, whose spans reach further, the region described is the window realised. */
  lemma DescribedExactly(c: Config, n: Node, d: Dev)
    requires Accepted(c) && n in Tree(c) && Region(n, d).Some? && !d.Mtimer? && !d.ImsicS?
    ensures Region(n, d) == Some(WindowOf(c, d))
  {
    DescribedIsRealised(c, n, d);
  }

  /** At most one node describes a device. */
  lemma DescribedOnce(c: Config, m: Node, n: Node, d: Dev)
    requires Accepted(c) && m in Tree(c) && n in Tree(c) && Region(m, d).Some? && Region(n, d).Some?
    ensures m == n
  {
    TreeOnly(c, m, d);
    TreeOnly(c, n, d);
  }

  /** RAM, boot ROM, fw_cfg, flash and the platform bus have nodes outside this tree. */
  predicate Listed(d: Dev) {
    !d.Ram? && !d.Mrom? && !d.FwCfg? && !d.Flash? && !d.PlatformBus?
  }

  /** Every realised device is described, except that KVM's in-kernel AIA describes socket 0's APLIC only. */
  lemma RealisedIsDescribedIff(c: Config, d: Dev)
    requires Accepted(c) && d in Parts(c) && Listed(d)
    ensures (exists n :: n in Tree(c) && Region(n, d).Some?)
            <==> !(c.accel == Kvm && c.kernelIrqchip && c.aia == AplicImsic && d.AplicS? && d.socket > 0)
  {
    PartsExact(c, d);
    if KvmAia(c) && d.AplicS? && d.socket > 0 {
      forall n | n in Tree(c)
        ensures Region(n, d) == None
      {
        if Region(n, d).Some? { TreeOnly(c, n, d); }
      }
    } else {
      NodeInTree(c, d);
      NodeDescribes(c, d);
    }
  }

  /** Where the tree puts the timer's two registers: the compare registers at the realised base and the
      counter at the offset the device is created with. */
  lemma MtimerRegisters(c: Config, k: nat)
    requires Accepted(c) && k < |c.socs| && c.aclint
    ensures MtimerNode(c, k) in Tree(c)
    ensures MtimerNode(c, k).reg[0].base == WindowOf(c, Mtimer(k)).base + ACLINT_MTIME
    ensures MtimerNode(c, k).reg[1].base == WindowOf(c, Mtimer(k)).base + ACLINT_MTIMECMP
    ensures MtimerNode(c, k).reg[0].base + 8 == WindowOf(c, Mtimer(k)).base + WindowOf(c, Mtimer(k)).size
  {
    assert MtimerNode(c, k) in TimerNodes(c, k);
    TimerInTree(c, k, MtimerNode(c, k));
  }

  // ---------- the IMSIC regions are tiled ----------

  lemma Quotient(a: nat, h: nat, n: nat) returns (i: nat)
    requires 0 < h && a < h * n
    ensures i < n && i * h <= a < (i + 1) * h
    ensures forall j: nat :: j * h <= a < (j + 1) * h ==> j == i
  {
    i := a / h;
    assert a == h * i + a % h;
    if i >= n { AtMostTimes(n, i, h); }
    forall j: nat | j * h <= a < (j + 1) * h
      ensures j == i
    {
      if j < i { AtMostTimes(j + 1, i, h); }
      if i < j { AtMostTimes(i + 1, j, h); }
    }
  }

  predicate InSlot(c: Config, mMode: bool, k: nat, i: nat, a: nat) {
    var base := WindowOf(c, ImsicPart(mMode, k, i)).base;
    base <= a < base + HartSize(GuestBits(c, mMode))
  }

  lemma InSlotOffset(c: Config, mMode: bool, k: nat, i: nat, a: nat)
    requires k < |c.socs|
    ensures var off, h := a - ImsicRegs(c, mMode)[k].base, HartSize(GuestBits(c, mMode));
            InSlot(c, mMode, k, i, a) <==> i * h <= off < (i + 1) * h
  {
    SlotStart(c, mMode, k, i);
    Distribute(1, i, 1, HartSize(GuestBits(c, mMode)));
  }

  lemma SlotOf(c: Config, mMode: bool, k: nat, a: nat) returns (i: nat)
    requires k < |c.socs| && var r := ImsicRegs(c, mMode)[k]; r.base <= a < r.base + r.size
    ensures i < c.socs[k].numHarts && InSlot(c, mMode, k, i, a)
    ensures forall j: nat :: InSlot(c, mMode, k, j, a) ==> j == i
  {
    i := Quotient(a - ImsicRegs(c, mMode)[k].base, HartSize(GuestBits(c, mMode)), c.socs[k].numHarts);
    InSlotOffset(c, mMode, k, i, a);
    forall j: nat | InSlot(c, mMode, k, j, a)
      ensures j == i
    {
      InSlotOffset(c, mMode, k, j, a);
    }
  }

  /** Every address of a described IMSIC region lies in the slot of exactly one hart, and that hart's
      interrupt file is realised at the slot's start. */
  lemma ImsicTiled(c: Config, mMode: bool, k: nat, a: nat) returns (i: nat)
    requires Accepted(c) && c.aia == AplicImsic && (mMode ==> c.accel != Kvm) && k < |c.socs|
    requires var r := ImsicRegs(c, mMode)[k]; r.base <= a < r.base + r.size
    ensures ImsicPart(mMode, k, i) in Parts(c) && InSlot(c, mMode, k, i, a)
    ensures forall j: nat :: InSlot(c, mMode, k, j, a) ==> j == i
  {
    i := SlotOf(c, mMode, k, a);
    FileRealised(c, mMode, k, i);
  }

  lemma FileRealised(c: Config, mMode: bool, k: nat, i: nat)
    requires Accepted(c) && c.aia == AplicImsic && (mMode ==> c.accel != Kvm)
    requires k < |c.socs| && i < c.socs[k].numHarts
    ensures ImsicPart(mMode, k, i) in Parts(c)
  {
    PartsExact(c, ImsicPart(mMode, k, i));
  }

  // ---------- the same harts ----------

  /** The lines a per-socket device's node lists for each hart. */
  function LinesOf(c: Config, d: Dev): (irqs: seq<nat>)
    ensures |irqs| <= 2
  {
    match d
    case Swi(_) => if c.aclint then [IRQ_M_SOFT] else [IRQ_M_SOFT, IRQ_M_TIMER]
    case Mtimer(_) => if c.aclint then [IRQ_M_TIMER] else [IRQ_M_SOFT, IRQ_M_TIMER]
    case Sswi(_) => [IRQ_S_SOFT]
    case PlicDev(_) => PlicIrqs(c)
    case AplicM(_) => [IRQ_M_EXT]
    case AplicS(_) => [IRQ_S_EXT]
    case _ => []
  }

  lemma ListsOwnHarts(c: Config, d: Dev)
    requires Accepted(c) && NodeFor(c, d).Some? && LinesOf(c, d) != []
    ensures Home(d).Some? && Home(d).value < |c.socs| && 1 <= |LinesOf(c, d)| <= 2
    ensures var n, k := NodeFor(c, d).value, Home(d).value;
            && (HartsOf(c, d) == c.socs[k] || HartsOf(c, d) == Soc(0, 0))
            && (n.Timer? || n.PlicNode? || n.AplicNode?)
            && n.interrupts == if HartsOf(c, d) == c.socs[k] then Lines(SocketIntcs(c, k), LinesOf(c, d)) else []
  {
  }

  lemma SliceAt(c: Config, k: nat, i: nat)
    requires k < |c.socs| && i < c.socs[k].numHarts
    ensures |SocketIntcs(c, k)| == c.socs[k].numHarts && Pos(c, k) + i < Cpus(c)
    ensures SocketIntcs(c, k)[i] == IntcPhandle(c, Pos(c, k) + i)
  {
    SliceInside(c, k);
  }

  /** The interrupts-extended array of the node that describes a per-socket device. */
  function ListedFor(c: Config, d: Dev): seq<nat>
    requires 1 <= |c.socs|
  {
    match NodeFor(c, d)
    case Some(Timer(_, _, _, cells)) => cells
    case Some(PlicNode(_, _, cells, _)) => cells
    case Some(AplicNode(_, _, _, cells, _, _, _)) => cells
    case _ => []
  }

  /** A socket's timer or wired controller serves as many harts as its node lists, one entry for each line. */
  lemma ListLength(c: Config, d: Dev)
    requires Accepted(c) && NodeFor(c, d).Some? && LinesOf(c, d) != []
    ensures |ListedFor(c, d)| == CellsFor(|LinesOf(c, d)|, HartsOf(c, d).numHarts)
  {
    ListsOwnHarts(c, d);
    LinesLength(SocketIntcs(c, Home(d).value), LinesOf(c, d));
  }

  lemma OwnSocket(c: Config, d: Dev, k: nat)
    requires Accepted(c) && NodeFor(c, d).Some? && LinesOf(c, d) != [] && Home(d) == Some(k)
    requires HartsOf(c, d).numHarts > 0
    ensures k < |c.socs| && HartsOf(c, d) == c.socs[k] && |LinesOf(c, d)| <= 2
    ensures ListedFor(c, d) == Lines(SocketIntcs(c, k), LinesOf(c, d))
  {
    ListsOwnHarts(c, d);
  }

  lemma SocketCells(c: Config, k: nat, h: Soc, ps: seq<nat>, irqs: seq<nat>, i: nat, l: nat, at: nat)
    requires k < |c.socs| && h == c.socs[k] && ps == SocketIntcs(c, k)
    requires i < h.numHarts && l < |irqs| <= 2 && at == CellsFor(|irqs|, i) + 2 * l
    ensures at + 1 < |Lines(ps, irqs)| && Lines(ps, irqs)[at + 1] == irqs[l]
    ensures Lines(ps, irqs)[at] == 2 * (Cpus(c) - (Pos(c, k) + i))
  {
    SliceAt(c, k, i);
    LinesEntry(ps, irqs, i, l, at);
  }

  lemma HartEntry(c: Config, d: Dev, k: nat, h: Soc, cells: seq<nat>, irqs: seq<nat>, i: nat, l: nat, at: nat)
    requires Accepted(c) && NodeFor(c, d).Some? && Home(d) == Some(k)
    requires h == HartsOf(c, d) && cells == ListedFor(c, d) && irqs == LinesOf(c, d)
    requires i < h.numHarts && l < |irqs| && at == CellsFor(|irqs|, i) + 2 * l
    ensures k < |c.socs| && h == c.socs[k]
    ensures at + 1 < |cells| && cells[at + 1] == irqs[l] && cells[at] == 2 * (Cpus(c) - (Pos(c, k) + i))
  {
    OwnSocket(c, d, k);
    SocketCells(c, k, h, SocketIntcs(c, k), irqs, i, l, at);
  }

  /** The i-th hart the node lists is the i-th hart id the device was created for, once per line: no hart is
      missing and no other socket's hart is named. */
  lemma HartsMatch(c: Config, d: Dev, k: nat, h: Soc, cells: seq<nat>, irqs: seq<nat>, i: nat, l: nat, at: nat)
    returns (hart: nat)
    requires Accepted(c) && NodeFor(c, d).Some? && Home(d) == Some(k)
    requires h == HartsOf(c, d) && cells == ListedFor(c, d) && irqs == LinesOf(c, d)
    requires i < h.numHarts && l < |irqs| && at == CellsFor(|irqs|, i) + 2 * l
    ensures hart == h.hartBase + i
    ensures at + 1 < |cells| && cells[at + 1] == irqs[l]
    ensures Resolve(Tree(c), cells[at]) == Some(CpuIntc(hart, cells[at]))
  {
    HartEntry(c, d, k, h, cells, irqs, i, l, at);
    hart := h.hartBase + i;
    IntcAt(c, k, i, hart, cells[at]);
  }

  lemma ImsicEntry(c: Config, mMode: bool, k: nat, i: nat, cells: seq<nat>, at: nat)
    requires k < |c.socs| && i < c.socs[k].numHarts
    requires cells == Lines(Intcs(c, 0, Cpus(c)), [ExtIrq(mMode)]) && at == 2 * (Pos(c, k) + i)
    ensures at + 1 < |cells| && cells[at + 1] == ExtIrq(mMode) && cells[at] == 2 * (Cpus(c) - (Pos(c, k) + i))
  {
    SliceInside(c, k);
    AllEntry(c, [ExtIrq(mMode)], Pos(c, k) + i, 0, at);
  }

  /** The IMSIC node lists, at the hart's global position, the hart whose interrupt file is hart i of socket k. */
  lemma ImsicHartMatches(c: Config, mMode: bool, k: nat, i: nat, h: Soc, cells: seq<nat>, at: nat)
    requires k < |c.socs| && i < c.socs[k].numHarts && at == 2 * (Pos(c, k) + i)
    requires h == HartsOf(c, ImsicPart(mMode, k, i)) && cells == OneImsic(c, mMode).interrupts
    ensures at + 1 < |cells| && cells[at + 1] == ExtIrq(mMode) && h.numHarts == 1
    ensures Resolve(Tree(c), cells[at]) == Some(CpuIntc(h.hartBase, cells[at]))
  {
    ImsicEntry(c, mMode, k, i, cells, at);
    IntcAt(c, k, i, h.hartBase, cells[at]);
  }

  /** The lines listed for a device's harts are the causes that device raises. */
  lemma LinesAreCauses(c: Config, d: Dev)
    requires Accepted(c) && Present(c, d) && LinesOf(c, d) != []
    ensures LinesOf(c, d)
            == match d
               case Swi(_) => if c.aclint then [Cause(0, true)] else [Cause(0, true), Cause(1, true)]
               case Mtimer(_) => if c.aclint then [Cause(1, true)] else [Cause(0, true), Cause(1, true)]
               case Sswi(_) => [Cause(0, false)]
               case PlicDev(_) => if c.accel == Kvm then [Cause(2, false)] else [Cause(2, true), Cause(2, false)]
               case AplicM(_) => [Cause(2, true)]
               case _ => [Cause(2, false)]
  {
  }

  // ---------- the same domains ----------

  /** Node m hands its interrupts on to node n. */
  predicate Delegates(c: Config, m: Node, n: Node)
    requires 1 <= |c.socs|
  {
    m.AplicNode? && m.child.Some? && Resolve(Tree(c), m.child.value) == Some(n)
  }

  lemma MachineLevelDelegates(c: Config, j: nat, k: nat)
    requires 1 <= |c.socs| && j < XplicSockets(c) && k < XplicSockets(c) && c.aia != NoAia && c.accel != Kvm
    ensures Delegates(c, OneAplic(c, true, j), OneAplic(c, false, k)) <==> j == k
  {
    AplicChildResolves(c, j);
    assert OneAplic(c, false, j).socket == j && OneAplic(c, false, k).socket == k;
  }

  lemma OthersDoNotDelegate(c: Config, d: Dev, n: Node)
    requires Accepted(c) && NodeFor(c, d).Some? && !d.AplicM?
    ensures !Delegates(c, NodeFor(c, d).value, n)
  {
  }

  /** The tree hands a supervisor-level APLIC's interrupts on from the node of exactly that device which is its
      parent in the machine. */
  lemma DomainsAgree(c: Config, d: Dev, k: nat)
    requires Accepted(c) && NodeFor(c, d).Some? && NodeFor(c, AplicS(k)).Some?
    ensures Delegates(c, NodeFor(c, d).value, NodeFor(c, AplicS(k)).value)
            <==> Made(c, AplicS(k)).parent == Some(d)
  {
    NodeForAplicS(c, k);
    if d.AplicM? {
      NodeForAplicM(c, d.socket);
      MachineLevelDelegates(c, d.socket, k);
    } else {
      OthersDoNotDelegate(c, d, NodeFor(c, AplicS(k)).value);
    }
  }

  // ---------- where interrupts go ----------

  /** Interrupts entering `chip` are those of node n: n describes the chip, or the chip's node delegates to n. */
  predicate Feeds(c: Config, chip: Dev, n: Node)
    requires 1 <= |c.socs|
  {
    NodeFor(c, chip).Some? &&
    var m := NodeFor(c, chip).value;
    m == n || (m.AplicNode? && m.child.Some? && Resolve(Tree(c), m.child.value) == Some(n))
  }

  lemma NodeForChip(c: Config, k: nat)
    requires 1 <= |c.socs| && k < XplicSockets(c)
    ensures NodeFor(c, ChipOf(c, k))
            == Some(if c.aia != NoAia && c.accel != Kvm then OneAplic(c, true, k) else XplicNode(c, k))
  {
    if c.aia == NoAia {
      NodeForPlic(c, k);
    } else if c.accel == Kvm {
      NodeForAplicS(c, k);
    } else {
      NodeForAplicM(c, k);
    }
  }

  lemma XplicSocketIs(c: Config, k: nat)
    requires k < |c.socs| && k < XplicSockets(c)
    ensures var n := XplicNode(c, k);
            (n.PlicNode? || n.AplicNode?) && n.socket == k && (n.AplicNode? ==> !n.mMode && n.child == None)
  {
  }

  lemma SameSocketFeeds(c: Config, k: nat)
    requires 1 <= |c.socs| && k < XplicSockets(c)
    ensures Feeds(c, ChipOf(c, k), XplicNode(c, k))
  {
    NodeForChip(c, k);
    if c.aia != NoAia && c.accel != Kvm { AplicChildResolves(c, k); }
  }

  lemma OtherSocketApart(c: Config, wired: nat, named: nat)
    requires 1 <= |c.socs| && wired < XplicSockets(c) && named < XplicSockets(c) && wired != named
    ensures !Feeds(c, ChipOf(c, wired), XplicNode(c, named))
  {
    NodeForChip(c, wired);
    XplicSocketIs(c, wired);
    XplicSocketIs(c, named);
    if c.aia != NoAia && c.accel != Kvm { AplicChildResolves(c, wired); }
  }

  /** The tree's controller of socket `named` stands for the controller device of socket `wired` exactly
      when they are the same socket. */
  lemma FeedsIff(c: Config, wired: nat, named: nat)
    requires Accepted(c) && wired < |c.socs| && named < XplicSockets(c)
    ensures Feeds(c, ChipOf(c, wired), XplicNode(c, named)) <==> wired == named
  {
    if wired >= XplicSockets(c) {
      assert NodeFor(c, ChipOf(c, wired)) == None;
    } else if wired == named {
      SameSocketFeeds(c, wired);
    } else {
      OtherSocketApart(c, wired, named);
    }
  }

  /** The sockets the tree names are the wired ones, except with KVM's in-kernel AIA and several sockets. */
  lemma SocketsAgreeIff(c: Config)
    requires Accepted(c)
    ensures !(c.accel == Kvm && c.kernelIrqchip && c.aia == AplicImsic) || |c.socs| == 1
            <==> VirtioSocket(c) == WiredVirtio(c)
    ensures !(c.accel == Kvm && c.kernelIrqchip && c.aia == AplicImsic) || |c.socs| == 1
            <==> PcieSocket(c) == WiredPcie(c)
  {
  }

  /** For a device with a node of its own: the tree gives the line it is wired to, and a parent that stands
      for the controller it is wired to, exactly unless KVM's AIA meets a virtio device and several sockets. */
  lemma WireAgreesIff(c: Config, w: Wire) returns (n: Node, parent: Node)
    requires Accepted(c) && w in Wires(c) && w.dev != Ecam && w.dev != PlatformBus
    ensures NodeFor(c, w.dev) == Some(n) && n in Tree(c) && n.Wired? && n.dev == w.dev
    ensures n.interrupts == if c.aia == NoAia then [w.line] else [w.line, 0x4]
    ensures Resolve(Tree(c), n.parent) == Some(parent)
    ensures Feeds(c, w.chip, parent)
            <==> !(c.accel == Kvm && c.kernelIrqchip && c.aia == AplicImsic && |c.socs| > 1 && w.dev.Virtio?)
  {
    var wired, named := WireOf(c, w);
    SocketsAgreeIff(c);
    n := NodeFor(c, w.dev).value;
    NodeInTree(c, w.dev);
    ParentsResolve(c, named);
    parent := XplicNode(c, named);
    FeedsIff(c, wired, named);
  }

  lemma WireOf(c: Config, w: Wire) returns (wired: nat, named: nat)
    requires Accepted(c) && w in Wires(c) && w.dev != Ecam && w.dev != PlatformBus
    ensures wired == (if w.dev.Virtio? then WiredVirtio(c) else 0) && w.chip == ChipOf(c, wired)
    ensures named == (if w.dev.Virtio? then VirtioSocket(c) else 0) && named < XplicSockets(c)
    ensures NodeFor(c, w.dev).Some?
    ensures var n := NodeFor(c, w.dev).value;
            && n.Wired? && n.dev == w.dev && n.parent == XplicPhandle(c, named)
            && n.interrupts == if c.aia == NoAia then [w.line] else [w.line, 0x4]
  {
    wired := if w.dev.Virtio? then WiredVirtio(c) else 0;
    named := if w.dev.Virtio? then VirtioSocket(c) else 0;
    var mmio, virtio, pcie := ChipOf(c, 0), ChipOf(c, WiredVirtio(c)), ChipOf(c, WiredPcie(c));
    var i :| 0 <= i < |Wires(c)| && Wires(c)[i] == w;
    if i < 8 {
      assert w == VirtioWires(virtio)[i];
    } else if i >= 44 {
      assert w == LastWires(mmio)[i - 44];
    }
  }

  /** Any PCIe pin, swizzled by its slot, arrives on a host output wired to the very line that the one
      matching row of the tree's interrupt map gives, and at the controller that row names unless KVM's AIA
      meets several sockets. */
  lemma PcieWireAgreesIff(c: Config, bus: nat, slot: nat, func: nat, pin: nat) returns (r: nat, w: Wire, parent: Node)
    requires Accepted(c) && bus < 256 && slot < 32 && func < 8 && 1 <= pin <= 4
    ensures PcieNode(c) in Tree(c) && r < ROWS
    ensures Matches(PcieNode(c).irqMap, Stride(c.aia), r, UnitAddress(bus, slot, func), pin)
    ensures w in Wires(c) && w.dev == Ecam && w.output == (pin - 1 + slot) % GPEX_NUM_IRQS
    ensures var s := Specifier(PcieNode(c).irqMap, Stride(c.aia), r);
            |s| >= 2 && s[1] == w.line && Resolve(Tree(c), s[0]) == Some(parent)
    ensures Feeds(c, w.chip, parent)
            <==> !(c.accel == Kvm && c.kernelIrqchip && c.aia == AplicImsic && |c.socs| > 1)
  {
    PcieResolves(c);
    r := PcieRow(c, bus, slot, func, pin);
    w := PcieWire(c, (pin - 1 + slot) % GPEX_NUM_IRQS);
    parent := PcieParent(c);
  }

  /** The row a pin matches in the table of the PCIe node, and the controller and line it gives. */
  lemma PcieRow(c: Config, bus: nat, slot: nat, func: nat, pin: nat) returns (r: nat)
    requires 1 <= |c.socs| && bus < 256 && slot < 32 && func < 8 && 1 <= pin <= 4
    ensures r < ROWS && Matches(PcieNode(c).irqMap, Stride(c.aia), r, UnitAddress(bus, slot, func), pin)
    ensures var s := Specifier(PcieNode(c).irqMap, Stride(c.aia), r);
            |s| >= 2 && s[0] == XplicPhandle(c, PcieSocket(c)) && s[1] == PCIE_IRQ + (pin - 1 + slot) % GPEX_NUM_IRQS
  {
    r := LookupIsSwizzle(c.aia, XplicPhandle(c, PcieSocket(c)), bus, slot, func, pin);
  }

  lemma PcieParent(c: Config) returns (parent: Node)
    requires Accepted(c)
    ensures Resolve(Tree(c), XplicPhandle(c, PcieSocket(c))) == Some(parent)
    ensures Feeds(c, ChipOf(c, WiredPcie(c)), parent) <==> !(KvmAia(c) && |c.socs| > 1)
  {
    ParentsResolve(c, PcieSocket(c));
    parent := XplicNode(c, PcieSocket(c));
    SocketsAgreeIff(c);
    FeedsIff(c, WiredPcie(c), PcieSocket(c));
  }

  lemma PcieWire(c: Config, i: nat) returns (w: Wire)
    requires 1 <= |c.socs| && i < GPEX_NUM_IRQS
    ensures w == Wire(Ecam, i, ChipOf(c, WiredPcie(c)), PCIE_IRQ + i) && w in Wires(c)
  {
    var bank := Bank(Ecam, ChipOf(c, WiredPcie(c)), PCIE_IRQ, GPEX_NUM_IRQS);
    w := bank[i];
    assert w in bank;
  }

  // ---------- sockets ----------

  lemma NoSocketNodes(c: Config, n: Node)
    requires 1 <= |c.socs| && (n.Cluster? || n.Memory?)
    ensures n !in ImsicNodes(c) && n !in XplicsFrom(c, 0) && n !in DeviceNodes(c)
  {
    NoSocketXplics(c, n);
    NoSocketDevices(c, n);
  }

  lemma NoSocketXplics(c: Config, n: Node)
    requires 1 <= |c.socs| && (n.Cluster? || n.Memory?)
    ensures n !in XplicsFrom(c, 0)
  {
    if n in XplicsFrom(c, 0) {
      var k := FromXplic(c, n);
    }
  }

  lemma NoSocketDevices(c: Config, n: Node)
    requires 1 <= |c.socs| && (n.Cluster? || n.Memory?)
    ensures n !in DeviceNodes(c)
  {
    InEither(VirtioNodes(c), [PcieNode(c)], n);
    InEither(VirtioNodes(c) + [PcieNode(c)], ResetNodes(c), n);
    InEither(VirtioNodes(c) + [PcieNode(c)] + ResetNodes(c), WiredNodes(c), n);
  }

  lemma OwnCluster(c: Config, k: nat, n: Node)
    requires k < |c.socs| && n in SocketNodes(c, k) && (n.Cluster? || n.Memory?)
    ensures n == Cluster(k) || n == Memory(k)
  {
    InEither([Cluster(k)] + CpusFrom(c, k, 0) + [Memory(k)], TimerNodes(c, k), n);
    InEither([Cluster(k)] + CpusFrom(c, k, 0), [Memory(k)], n);
    InEither([Cluster(k)], CpusFrom(c, k, 0), n);
    if n in CpusFrom(c, k, 0) { CpuKinds(c, k, 0, n); }
  }

  /** The tree has a cluster node and a memory node for each socket and for no other number. */
  lemma SocketsListed(c: Config, k: nat)
    requires 1 <= |c.socs|
    ensures Cluster(k) in Tree(c) <==> k < |c.socs|
    ensures Memory(k) in Tree(c) <==> k < |c.socs|
  {
    SocketNodeIff(c, k, Cluster(k));
    SocketNodeIff(c, k, Memory(k));
  }

  lemma SocketNodeIff(c: Config, k: nat, n: Node)
    requires 1 <= |c.socs| && (n == Cluster(k) || n == Memory(k))
    ensures n in Tree(c) <==> k < |c.socs|
  {
    NoSocketNodes(c, n);
    if k < |c.socs| {
      SocketInTree(c, k, n);
    }
    InEither(ControllerNodes(c), DeviceNodes(c), n);
    InEither(SocketsFrom(c, 0) + ImsicNodes(c), XplicsFrom(c, 0), n);
    InEither(SocketsFrom(c, 0), ImsicNodes(c), n);
    if n in SocketsFrom(c, 0) {
      var j := FromSocket(c, n);
      OwnCluster(c, j, n);
    }
  }
}
