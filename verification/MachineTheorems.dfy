/** What the built machine is: each device of the configuration once, in its own addresses, with an
    interrupt line of its own. */
module MachineTheorems {
  import opened Options
  import opened Board
  import opened AddressSpace
  import opened MachineInit

  // ---------- which devices ----------

  function Home(d: Dev): Option<nat> {
    match d
    case Swi(k) => Some(k)
    case Mtimer(k) => Some(k)
    case Sswi(k) => Some(k)
    case PlicDev(k) => Some(k)
    case AplicM(k) => Some(k)
    case AplicS(k) => Some(k)
    case ImsicM(k, _) => Some(k)
    case ImsicS(k, _) => Some(k)
    case _ => None
  }

  predicate IsTimer(d: Dev) {
    d.Swi? || d.Mtimer? || d.Sswi?
  }

  predicate IsFile(d: Dev) {
    d.ImsicM? || d.ImsicS?
  }

  lemma TimersExact(c: Config, k: nat, d: Dev)
    requires Accepted(c) && k < |c.socs|
    ensures d in TimerParts(c, k) <==> Present(c, d) && Home(d) == Some(k) && IsTimer(d)
  {
  }

  lemma ImsicsExact(mMode: bool, k: nat, n: nat, d: Dev)
    ensures d in ImsicParts(mMode, k, n)
            <==> if mMode then d.ImsicM? && d.socket == k && d.hart < n else d.ImsicS? && d.socket == k && d.hart < n
  {
    var s := ImsicParts(mMode, k, n);
    if IsFile(d) && d.hart < n {
      assert s[d.hart] == ImsicPart(mMode, k, d.hart);
    }
  }

  lemma FilesExact(c: Config, k: nat, d: Dev)
    requires k < |c.socs|
    ensures d in FileParts(c, k) <==> Present(c, d) && Home(d) == Some(k) && IsFile(d)
  {
    ImsicsExact(true, k, c.socs[k].numHarts, d);
    ImsicsExact(false, k, c.socs[k].numHarts, d);
  }

  lemma ChipsExact(c: Config, k: nat, d: Dev)
    requires k < |c.socs|
    ensures d in ChipParts(c, k)
            <==> Present(c, d) && Home(d) == Some(k) && (d.PlicDev? || d.AplicM? || d.AplicS?)
  {
  }

  lemma SocketExact(c: Config, k: nat, d: Dev)
    requires Accepted(c) && k < |c.socs|
    ensures d in SocketParts(c, k) <==> Present(c, d) && Home(d) == Some(k)
  {
    TimersExact(c, k, d);
    FilesExact(c, k, d);
    ChipsExact(c, k, d);
  }

  lemma InJoin(a: seq<Dev>, b: seq<Dev>, d: Dev)
    ensures d in a + b <==> d in a || d in b
  {
  }

  function Flat(lists: seq<seq<Dev>>): seq<Dev> {
    if lists == [] then [] else Flat(lists[..|lists| - 1]) + lists[|lists| - 1]
  }

  lemma {:induction false} InFlat(lists: seq<seq<Dev>>, d: Dev, present: bool, home: Option<nat>)
    requires forall j :: 0 <= j < |lists| ==> (d in lists[j] <==> present && home == Some(j))
    ensures d in Flat(lists) <==> present && home.Some? && home.value < |lists|
  {
    if lists == [] {
    } else {
      var n := |lists| - 1;
      forall j | 0 <= j < n
        ensures d in lists[..n][j] <==> present && home == Some(j)
      {
        assert lists[..n][j] == lists[j];
      }
      InFlat(lists[..n], d, present, home);
      InJoin(Flat(lists[..n]), lists[n], d);
    }
  }

  function Lists(c: Config): (lists: seq<seq<Dev>>)
    ensures |lists| == |c.socs|
  {
    seq(|c.socs|, j requires 0 <= j < |c.socs| => SocketParts(c, j))
  }

  lemma {:induction false} PartsAreFlat(c: Config, k: nat)
    requires k <= |c.socs|
    ensures PartsUpTo(c, k) == Flat(Lists(c)[..k])
  {
    if k == 0 {
    } else {
      PartsAreFlat(c, k - 1);
      assert Lists(c)[..k][..k - 1] == Lists(c)[..k - 1];
    }
  }

  lemma SocketsExact(c: Config, k: nat, d: Dev)
    requires Accepted(c) && k <= |c.socs|
    ensures d in PartsUpTo(c, k) <==> Present(c, d) && Home(d).Some? && Home(d).value < k
  {
    var present, home := Present(c, d), Home(d);
    var lists := Lists(c)[..k];
    forall j | 0 <= j < k
      ensures d in lists[j] <==> present && home == Some(j)
    {
      SocketExact(c, j, d);
    }
    InFlat(lists, d, present, home);
    PartsAreFlat(c, k);
  }

  lemma BoardExact(c: Config, d: Dev)
    ensures d in BoardParts() <==> Present(c, d) && Home(d) == None
  {
    var v := VirtioParts();
    if d.Virtio? && d.index < VIRTIO_COUNT {
      assert v[d.index] == d;
    }
    assert d in v <==> d.Virtio? && d.index < VIRTIO_COUNT;
    assert d in BoardParts()
           <==> d in BEFORE_VIRTIO || d in v || d in PCIE_WINDOWS || d in PLATFORM || d in MMIO_WIRED || d in FLASHES;
  }

  /** The realised devices are exactly those the configuration calls for. */
  lemma PartsExact(c: Config, d: Dev)
    requires Accepted(c)
    ensures d in Parts(c) <==> Present(c, d)
  {
    SocketsExact(c, |c.socs|, d);
    BoardExact(c, d);
  }

  // ---------- each once ----------

  predicate Distinct(s: seq<Dev>) {
    forall i, j :: 0 <= i < j < |s| ==> s[i] != s[j]
  }

  lemma DistinctJoin(a: seq<Dev>, b: seq<Dev>)
    requires Distinct(a) && Distinct(b) && forall d :: d in a ==> d !in b
    ensures Distinct(a + b)
  {
    var s := a + b;
    forall i, j | 0 <= i < j < |s|
      ensures s[i] != s[j]
    {
      if i < |a| {
        assert a[i] in a;
      }
    }
  }

  lemma FilesDistinct(c: Config, k: nat)
    requires k < |c.socs|
    ensures Distinct(FileParts(c, k))
  {
    var n := c.socs[k].numHarts;
    var m, s := ImsicParts(true, k, n), ImsicParts(false, k, n);
    forall d | d in m
      ensures d !in s
    {
      ImsicsExact(true, k, n, d);
      ImsicsExact(false, k, n, d);
    }
    DistinctJoin(m, s);
  }

  lemma SocketDistinct(c: Config, k: nat)
    requires Accepted(c) && k < |c.socs|
    ensures Distinct(SocketParts(c, k))
  {
    var t, f, x := TimerParts(c, k), FileParts(c, k), ChipParts(c, k);
    FilesDistinct(c, k);
    forall d | d in f
      ensures d !in x && d !in t
    {
      FilesExact(c, k, d);
    }
    DistinctJoin(f, x);
    forall d | d in t
      ensures d !in f + x
    {
    }
    DistinctJoin(t, f + x);
  }

  /** Lists without repeats, no two of them with an element in common, join to a list without repeats. */
  lemma {:induction false} FlatDistinct(lists: seq<seq<Dev>>)
    requires forall j :: 0 <= j < |lists| ==> Distinct(lists[j])
    requires forall i, j, d :: 0 <= i < j < |lists| && d in lists[i] ==> d !in lists[j]
    ensures Distinct(Flat(lists))
  {
    if lists == [] {
    } else {
      var n := |lists| - 1;
      FlatDistinct(lists[..n]);
      forall d | d in Flat(lists[..n])
        ensures d !in lists[n]
      {
        var i := FromFlat(lists[..n], d);
      }
      DistinctJoin(Flat(lists[..n]), lists[n]);
    }
  }

  lemma {:induction false} FromFlat(lists: seq<seq<Dev>>, d: Dev) returns (i: nat)
    requires d in Flat(lists)
    ensures i < |lists| && d in lists[i]
  {
    var n := |lists| - 1;
    if d in lists[n] {
      i := n;
    } else {
      InJoin(Flat(lists[..n]), lists[n], d);
      i := FromFlat(lists[..n], d);
    }
  }

  lemma SocketsDistinct(c: Config)
    requires Accepted(c)
    ensures Distinct(PartsUpTo(c, |c.socs|))
  {
    var lists := Lists(c);
    forall j | 0 <= j < |lists|
      ensures Distinct(lists[j])
    {
      SocketDistinct(c, j);
    }
    forall i, j, d | 0 <= i < j < |lists| && d in lists[i]
      ensures d !in lists[j]
    {
      SocketExact(c, i, d);
      SocketExact(c, j, d);
    }
    FlatDistinct(lists);
    PartsAreFlat(c, |c.socs|);
    assert lists[..|c.socs|] == lists;
  }

  /** Where a device comes in the board's own list; -1 for a socket's. */
  function BoardIndex(d: Dev): int {
    match d
    case Ram => 0
    case Mrom => 1
    case FwCfg => 2
    case Test => 3
    case Virtio(i) => 4 + i
    case Ecam => 12
    case PcieMmio => 13
    case HighPcie => 14
    case Pio => 15
    case PlatformBus => 16
    case Uart => 17
    case Rtc => 18
    case MmioBus => 19
    case Flash(i) => 20 + i
    case _ => -1
  }

  lemma BoardIndexed(i: nat)
    requires i < |BoardParts()|
    ensures BoardIndex(BoardParts()[i]) == i
  {
    var v := VirtioParts();
    if i < 4 {
      assert BoardParts()[i] == BEFORE_VIRTIO[i];
    } else if i < 12 {
      assert BoardParts()[i] == v[i - 4];
    } else if i < 16 {
      assert BoardParts()[i] == PCIE_WINDOWS[i - 12];
    } else if i < 17 {
      assert BoardParts()[i] == PLATFORM[0];
    } else if i < 20 {
      assert BoardParts()[i] == MMIO_WIRED[i - 17];
    } else {
      assert BoardParts()[i] == FLASHES[i - 20];
    }
  }

  lemma BoardDistinct()
    ensures Distinct(BoardParts())
  {
    forall i, j | 0 <= i < j < |BoardParts()|
      ensures BoardParts()[i] != BoardParts()[j]
    {
      BoardIndexed(i);
      BoardIndexed(j);
    }
  }

  lemma PartsDistinct(c: Config)
    requires Accepted(c)
    ensures Distinct(Parts(c))
  {
    SocketsDistinct(c);
    BoardDistinct();
    forall d | d in PartsUpTo(c, |c.socs|)
      ensures d !in BoardParts()
    {
      SocketsExact(c, |c.socs|, d);
      BoardExact(c, d);
    }
    DistinctJoin(PartsUpTo(c, |c.socs|), BoardParts());
  }

  /** No two devices of the built machine share an address, as long as RAM's end rounds up within 64 bits. */
  lemma RealisedApart(c: Config, i: nat, j: nat)
    requires Accepted(c) && RamFits(c) && i < j < |Parts(c)|
    ensures Apart(AllMade(c, Parts(c))[i].at, AllMade(c, Parts(c))[j].at)
  {
    PartsDistinct(c);
    PartsExact(c, Parts(c)[i]);
    PartsExact(c, Parts(c)[j]);
    WindowsApart(c, Parts(c)[i], Parts(c)[j]);
  }

  // ---------- interrupt lines ----------

  /** The line of the i-th wire, in order of connection. */
  function LineAt(i: nat): nat {
    if i < 8 then VIRTIO_IRQ + i
    else if i < 12 then PCIE_IRQ + (i - 8)
    else if i < 44 then PLATFORM_BUS_IRQ + (i - 12)
    else if i == 44 then UART0_IRQ else if i == 45 then RTC_IRQ else MMIO_BUS_IRQ
  }

  lemma WireLine(mmio: Dev, virtio: Dev, pcie: Dev, i: nat)
    requires i < 47
    ensures |AllWires(mmio, virtio, pcie)| == 47 && AllWires(mmio, virtio, pcie)[i].line == LineAt(i)
  {
    var ws := AllWires(mmio, virtio, pcie);
    if i < 8 {
      assert ws[i] == VirtioWires(virtio)[i];
    } else if i < 12 {
      assert ws[i] == Bank(Ecam, pcie, PCIE_IRQ, GPEX_NUM_IRQS)[i - 8];
    } else if i < 44 {
      assert ws[i] == Bank(PlatformBus, mmio, PLATFORM_BUS_IRQ, PLATFORM_BUS_NUM_IRQS)[i - 12];
    } else {
      assert ws[i] == LastWires(mmio)[i - 44];
    }
  }

  /** No two outputs share a line, whichever controllers they go to, and every line is a source the
      controllers have; line 0 stays unused. */
  lemma LinesDistinct(c: Config, i: nat, j: nat)
    requires 1 <= |c.socs| && i < j < |Wires(c)|
    ensures Wires(c)[i].line != Wires(c)[j].line
    ensures 1 <= Wires(c)[i].line < NUM_SOURCES && 1 <= Wires(c)[j].line < NUM_SOURCES
  {
    WireLine(ChipOf(c, 0), ChipOf(c, WiredVirtio(c)), ChipOf(c, WiredPcie(c)), i);
    WireLine(ChipOf(c, 0), ChipOf(c, WiredVirtio(c)), ChipOf(c, WiredPcie(c)), j);
  }

  lemma WireEnds(mmio: Dev, virtio: Dev, pcie: Dev, w: Wire)
    requires w in AllWires(mmio, virtio, pcie)
    ensures w.chip == mmio || w.chip == virtio || w.chip == pcie
    ensures w.dev in VirtioParts() || w.dev in PCIE_WINDOWS || w.dev in PLATFORM || w.dev in MMIO_WIRED
  {
    var ws := AllWires(mmio, virtio, pcie);
    var i :| 0 <= i < |ws| && ws[i] == w;
    if i < 8 {
      assert w == VirtioWires(virtio)[i];
      assert VirtioParts()[i] == w.dev;
    } else if i < 12 {
      assert w == Bank(Ecam, pcie, PCIE_IRQ, GPEX_NUM_IRQS)[i - 8];
      assert PCIE_WINDOWS[0] == w.dev;
    } else if i < 44 {
      assert w == Bank(PlatformBus, mmio, PLATFORM_BUS_IRQ, PLATFORM_BUS_NUM_IRQS)[i - 12];
      assert PLATFORM[0] == w.dev;
    } else {
      assert w == LastWires(mmio)[i - 44];
      assert MMIO_WIRED[i - 44] == w.dev;
    }
  }

  lemma ChipPresent(c: Config, k: nat)
    requires k < |c.socs|
    ensures Present(c, ChipOf(c, k))
  {
  }

  /** Every wire joins a device and a controller the machine has. */
  lemma WiresReachChips(c: Config, w: Wire)
    requires Accepted(c) && w in Wires(c)
    ensures w.dev in Parts(c) && w.chip in Parts(c)
  {
    WireEnds(ChipOf(c, 0), ChipOf(c, WiredVirtio(c)), ChipOf(c, WiredPcie(c)), w);
    ChipPresent(c, 0);
    ChipPresent(c, WiredVirtio(c));
    ChipPresent(c, WiredPcie(c));
    assert w.dev in BoardParts();
    PartsExact(c, w.chip);
  }

  /** The wiring, wire by wire: the virtio devices go to the second socket's controller and PCIe to the third
      socket's, or to the last there is; everything else goes to the first. */
  lemma WiresExact(c: Config, w: Wire)
    requires 1 <= |c.socs|
    ensures w in Wires(c)
            <==> || (w.dev.Virtio? && w.dev.index < 8 && w.output == 0 && w.line == 1 + w.dev.index
                     && w.chip == ChipOf(c, if |c.socs| == 1 then 0 else 1))
                 || (w.dev == Ecam && w.output < 4 && w.line == 32 + w.output
                     && w.chip == ChipOf(c, if |c.socs| >= 3 then 2 else |c.socs| - 1))
                 || (w.dev == PlatformBus && w.output < 32 && w.line == 64 + w.output && w.chip == ChipOf(c, 0))
                 || (w.output == 0 && w.chip == ChipOf(c, 0)
                     && ((w.dev == Uart && w.line == 10) || (w.dev == Rtc && w.line == 11)
                         || (w.dev == MmioBus && w.line == 96)))
  {
    var virtio, pcie, mmio := ChipOf(c, WiredVirtio(c)), ChipOf(c, WiredPcie(c)), ChipOf(c, 0);
    InVirtioWires(virtio, w);
    InBank(Ecam, pcie, PCIE_IRQ, GPEX_NUM_IRQS, w);
    InBank(PlatformBus, mmio, PLATFORM_BUS_IRQ, PLATFORM_BUS_NUM_IRQS, w);
    InAllWires(mmio, virtio, pcie, w);
  }

  lemma InAllWires(mmio: Dev, virtio: Dev, pcie: Dev, w: Wire)
    ensures w in AllWires(mmio, virtio, pcie)
            <==> || w in VirtioWires(virtio) || w in Bank(Ecam, pcie, PCIE_IRQ, GPEX_NUM_IRQS)
                 || w in Bank(PlatformBus, mmio, PLATFORM_BUS_IRQ, PLATFORM_BUS_NUM_IRQS) || w in LastWires(mmio)
  {
  }

  lemma InVirtioWires(chip: Dev, w: Wire)
    ensures w in VirtioWires(chip)
            <==> w.dev.Virtio? && w.dev.index < 8 && w == Wire(w.dev, 0, chip, 1 + w.dev.index)
  {
    if w.dev.Virtio? && w.dev.index < 8 {
      assert VirtioWires(chip)[w.dev.index] == Wire(w.dev, 0, chip, 1 + w.dev.index);
    }
  }

  lemma InBank(d: Dev, chip: Dev, first: nat, n: nat, w: Wire)
    ensures w in Bank(d, chip, first, n) <==> w.output < n && w == Wire(d, w.output, chip, first + w.output)
  {
    if w.output < n {
      assert Bank(d, chip, first, n)[w.output] == Wire(d, w.output, chip, first + w.output);
    }
  }

  /** Interrupts enter a socket's controllers at the top: no wire ends at a controller that is another's child. */
  lemma WiresEnterAtTop(c: Config, w: Wire)
    requires Accepted(c) && w in Wires(c)
    ensures Made(c, w.chip).parent == None
  {
    WireEnds(ChipOf(c, 0), ChipOf(c, WiredVirtio(c)), ChipOf(c, WiredPcie(c)), w);
  }

  // ---------- refused hart ids ----------

  /** What QEMU answers decides the outcome: at most one socket is the first refused, for one reason, and none is
      exactly when all hart ids are known, contiguous and counted. */
  lemma RefusalDetermined(ids: seq<HartIds>)
    ensures forall j, k, r, s :: FirstRefused(ids, j, r) && FirstRefused(ids, k, s) ==> j == k && r == s
    ensures (exists k, r :: FirstRefused(ids, k, r))
            <==> exists k :: 0 <= k < |ids| && !(ids[k].contiguous && ids[k].first >= 0 && ids[k].count >= 0)
    ensures forall k: nat, r :: FirstRefused(ids, k, r)
                           ==> r == if !ids[k].contiguous then Discontinuous(k)
                                    else if ids[k].first < 0 then NoHartBase(k) else NoHartCount(k)
  {
    if k :| 0 <= k < |ids| && !(ids[k].contiguous && ids[k].first >= 0 && ids[k].count >= 0) {
      var first := FirstBad(ids, 0, k);
      assert FirstRefused(ids, first, SocketVerdict(ids[first], first));
    }
  }

  lemma {:induction false} FirstBad(ids: seq<HartIds>, n: nat, k: nat) returns (first: nat)
    requires n <= k < |ids| && AllKnown(ids, n) && SocketVerdict(ids[k], k) != Built
    ensures first < |ids| && FirstRefused(ids, first, SocketVerdict(ids[first], first))
    decreases k - n
  {
    if SocketVerdict(ids[n], n) != Built {
      first := n;
    } else {
      first := FirstBad(ids, n + 1, k);
    }
  }
}
