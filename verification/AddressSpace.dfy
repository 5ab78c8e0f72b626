/** Every address window the board realises, which configurations have which, and that no two overlap. */
module AddressSpace {
  import opened Arithmetic
  import opened Board
  import opened Imsic

  /** The board's address-mapped parts. A socket's hart is counted from the socket's own first hart. */
  datatype Dev =
    | Swi(socket: nat)
    | Mtimer(socket: nat)
    | Sswi(socket: nat)
    | PlicDev(socket: nat)
    | AplicM(socket: nat)
    | AplicS(socket: nat)
    | ImsicM(socket: nat, hart: nat)
    | ImsicS(socket: nat, hart: nat)
    | Ram
    | Mrom
    | FwCfg
    | Test
    | Virtio(index: nat)
    | Ecam
    | PcieMmio
    | HighPcie
    | Pio
    | PlatformBus
    | Uart
    | Rtc
    | MmioBus
    | Flash(index: nat)

  // ---------- RAM and the high PCIe window ----------

  /** The RAM size on record after the 10 GiB limit of 32-bit harts. The RAM region itself exists before the
      limit is applied and is mapped as it is, so its window keeps the size that was asked for. */
  function RamSize(c: Config): nat {
    if c.rv32 && c.ram > 10 * GIB then 10 * GIB else c.ram
  }

  /** ROUND_UP to the size of the high window, in 64-bit arithmetic. */
  function RoundUp64(v: nat): nat {
    (v + HIGH_PCIE_64_SIZE - 1) % 0x1_0000_0000_0000_0000 / HIGH_PCIE_64_SIZE * HIGH_PCIE_64_SIZE
  }

  function HighPcieWindow(c: Config): Window {
    if c.rv32 then HIGH_PCIE_32
    else Window(RoundUp64((DRAM_BASE + c.ram) % 0x1_0000_0000_0000_0000), HIGH_PCIE_64_SIZE)
  }

  /** RAM, mapped at its full size, leaves room for the high window: for 32-bit harts it is no larger than the
      limit, for 64-bit harts its end rounds up to 16 GiB without leaving 64 bits. */
  predicate RamFits(c: Config) {
    if c.rv32 then c.ram <= 10 * GIB else DRAM_BASE + c.ram + HIGH_PCIE_64_SIZE - 1 < 0x1_0000_0000_0000_0000
  }

  /** The high window starts at or above RAM's end exactly when RAM fits; then it is aligned and close. The limit
      keeps the size on record, though not the mapped region, below the fixed window of 32-bit harts. */
  lemma HighPcieAboveRam(c: Config)
    requires Accepted(c)
    ensures RamFits(c) <==> DRAM_BASE + c.ram <= HighPcieWindow(c).base
    ensures !c.rv32 && RamFits(c)
            ==> HighPcieWindow(c).base % HIGH_PCIE_64_SIZE == 0
                && HighPcieWindow(c).base < DRAM_BASE + c.ram + HIGH_PCIE_64_SIZE
                && HighPcieWindow(c).base + HIGH_PCIE_64_SIZE <= 0x1_0000_0000_0000_0000
    ensures c.rv32 ==> DRAM_BASE + RamSize(c) <= HIGH_PCIE_32.base
  {
    RoundUpExact(DRAM_BASE + c.ram);
  }

  /** The size on record is what was asked for, unless RAM of 32-bit harts would then pass the fixed window, and in
      that case it ends exactly there. */
  lemma RamSizeExact(c: Config)
    ensures RamSize(c)
            == if c.rv32 && DRAM_BASE + c.ram > HIGH_PCIE_32.base then HIGH_PCIE_32.base - DRAM_BASE else c.ram
  {
  }

  lemma RoundUpInside(end: nat)
    requires end + HIGH_PCIE_64_SIZE - 1 < 0x1_0000_0000_0000_0000
    ensures var r := RoundUp64(end % 0x1_0000_0000_0000_0000);
            end <= r < end + HIGH_PCIE_64_SIZE && r + HIGH_PCIE_64_SIZE <= 0x1_0000_0000_0000_0000
  {
  }

  lemma RoundUpWraps(end: nat)
    requires end < 0x1_0000_0000_0000_0000 + DRAM_BASE
    requires end + HIGH_PCIE_64_SIZE - 1 >= 0x1_0000_0000_0000_0000
    ensures RoundUp64(end % 0x1_0000_0000_0000_0000) <= HIGH_PCIE_64_SIZE < end
  {
    var v := end % 0x1_0000_0000_0000_0000;
    if end < 0x1_0000_0000_0000_0000 {
      assert v == end;
    } else {
      assert v == end - 0x1_0000_0000_0000_0000;
    }
  }

  /** ROUND_UP of a possibly wrapped end address. */
  lemma RoundUpExact(end: nat)
    requires DRAM_BASE <= end < 0x1_0000_0000_0000_0000 + DRAM_BASE
    ensures var r := RoundUp64(end % 0x1_0000_0000_0000_0000);
            && r % HIGH_PCIE_64_SIZE == 0
            && (end + HIGH_PCIE_64_SIZE - 1 < 0x1_0000_0000_0000_0000
                ==> end <= r < end + HIGH_PCIE_64_SIZE && r + HIGH_PCIE_64_SIZE <= 0x1_0000_0000_0000_0000)
            && (end + HIGH_PCIE_64_SIZE - 1 >= 0x1_0000_0000_0000_0000 ==> r <= HIGH_PCIE_64_SIZE < end)
  {
    if end + HIGH_PCIE_64_SIZE - 1 < 0x1_0000_0000_0000_0000 { RoundUpInside(end); } else { RoundUpWraps(end); }
  }

  // ---------- windows ----------

  function WindowOf(c: Config, d: Dev): Window {
    match d
    case Swi(k) => Window(CLINT.base + k * CLINT.size, ACLINT_SWI_SIZE)
    case Mtimer(k) =>
      if c.aclint && c.aia == AplicImsic then Window(CLINT.base + k * ACLINT_MTIMER_SIZE, ACLINT_MTIMER_SIZE)
      else Window(CLINT.base + k * CLINT.size + ACLINT_SWI_SIZE, ACLINT_MTIMER_SIZE)
    case Sswi(k) => Window(ACLINT_SSWI.base + k * ACLINT_SSWI.size, ACLINT_SWI_SIZE)
    case PlicDev(k) => Window(PLIC.base + k * PLIC.size, PLIC.size)
    case AplicM(k) => Window(APLIC_M.base + k * APLIC_M.size, APLIC_M.size)
    case AplicS(k) => Window(APLIC_S.base + k * APLIC_S.size, APLIC_S.size)
    case ImsicM(k, i) => Window(PageAddress(IMSIC_M_BASE, 0, k, i, 0), IMSIC_PAGE_SIZE)
    case ImsicS(k, i) =>
      Window(PageAddress(IMSIC_S_BASE, GuestBits(c, false), k, i, 0), (1 + c.guests) * IMSIC_PAGE_SIZE)
    case Ram => Window(DRAM_BASE, c.ram)
    case Mrom => MROM
    case FwCfg => FW_CFG
    case Test => TEST
    case Virtio(i) => Window(VIRTIO.base + i * VIRTIO.size, VIRTIO.size)
    case Ecam => PCIE_ECAM
    case PcieMmio => PCIE_MMIO
    case HighPcie => HighPcieWindow(c)
    case Pio => PCIE_PIO
    case PlatformBus => PLATFORM_BUS
    case Uart => UART0
    case Rtc => RTC
    case MmioBus => MMIO_BUS
    case Flash(i) => Window(FLASH.base + i * (FLASH.size / 2), FLASH.size / 2)
  }

  /** Does this configuration have the device? */
  predicate Present(c: Config, d: Dev) {
    match d
    case Swi(k) => k < |c.socs| && ((c.aclint && c.aia != AplicImsic) || (!c.aclint && c.accel == Tcg))
    case Mtimer(k) => k < |c.socs| && (c.aclint || c.accel == Tcg)
    case Sswi(k) => k < |c.socs| && c.aclint && c.aia != AplicImsic
    case PlicDev(k) => k < |c.socs| && c.aia == NoAia
    case AplicM(k) => k < |c.socs| && c.aia != NoAia && c.accel != Kvm
    case AplicS(k) => k < |c.socs| && c.aia != NoAia
    case ImsicM(k, i) => k < |c.socs| && i < c.socs[k].numHarts && c.aia == AplicImsic && c.accel != Kvm
    case ImsicS(k, i) => k < |c.socs| && i < c.socs[k].numHarts && c.aia == AplicImsic
    case Virtio(i) => i < VIRTIO_COUNT
    case Flash(i) => i < 2
    case _ => true
  }

  // ---------- disjointness ----------

  /** Which stretch of the address space a device lives in; stretches are numbered upwards. */
  function Stretch(d: Dev): nat {
    match d
    case Mrom => 0
    case Test => 1
    case Rtc => 2
    case Swi(_) => 3
    case Mtimer(_) => 3
    case Sswi(_) => 4
    case Pio => 5
    case PlatformBus => 6
    case MmioBus => 7
    case PlicDev(_) => 8
    case AplicM(_) => 8
    case AplicS(_) => 8
    case Uart => 9
    case Virtio(_) => 10
    case FwCfg => 11
    case Flash(_) => 12
    case ImsicM(_, _) => 13
    case ImsicS(_, _) => 14
    case Ecam => 15
    case PcieMmio => 16
    case Ram => 17
    case HighPcie => 17
  }

  function StretchStart(s: nat): nat {
    if s == 0 then MROM.base else if s == 1 then TEST.base else if s == 2 then RTC.base
    else if s == 3 then CLINT.base else if s == 4 then ACLINT_SSWI.base else if s == 5 then PCIE_PIO.base
    else if s == 6 then PLATFORM_BUS.base else if s == 7 then MMIO_BUS.base else if s == 8 then PLIC.base
    else if s == 9 then UART0.base else if s == 10 then VIRTIO.base else if s == 11 then FW_CFG.base
    else if s == 12 then FLASH.base else if s == 13 then IMSIC_M_BASE else if s == 14 then IMSIC_S_BASE
    else if s == 15 then PCIE_ECAM.base else if s == 16 then PCIE_MMIO.base else DRAM_BASE
  }

  /** The IMSIC slot of one hart lies in its group, after the slots of the harts before it. */
  lemma ImsicSlot(c: Config, mMode: bool, k: nat, i: nat, pages: nat)
    requires Accepted(c) && k < |c.socs| && i < c.socs[k].numHarts
    requires pages <= Pow2(GuestBits(c, mMode))
    ensures var g := GuestBits(c, mMode);
            && g <= 3
            && HartSize(g) == Pow2(g) * IMSIC_PAGE_SIZE
            && i * HartSize(g) + pages * IMSIC_PAGE_SIZE <= (i + 1) * HartSize(g) <= IMSIC_GROUP_MAX_SIZE
  {
    FieldsFit(c, mMode);
    SliceInside(c, k);
    SlotArithmetic(GuestBits(c, mMode), i, pages);
  }

  lemma SlotArithmetic(g: nat, i: nat, pages: nat)
    requires g <= 3 && i < CPUS_MAX && pages <= Pow2(g)
    ensures HartSize(g) == Pow2(g) * IMSIC_PAGE_SIZE
    ensures i * HartSize(g) + pages * IMSIC_PAGE_SIZE <= (i + 1) * HartSize(g) <= IMSIC_GROUP_MAX_SIZE
  {
    Pow2Values();
    SlotSpan(g, 1);
    if g == 0 {} else if g == 1 {} else if g == 2 {} else { assert g == 3; }
  }

  /** The span the device tree gives: the whole slot of an interrupt file, and everything up to the next
      socket's registers for a timer; the realised window for the rest. */
  function SpanOf(c: Config, d: Dev): Window {
    match d
    case Mtimer(_) => WindowOf(c, d).(size := TimerSpan(c))
    case ImsicS(_, _) => WindowOf(c, d).(size := HartSize(GuestBits(c, false)))
    case _ => WindowOf(c, d)
  }

  function TimerSpan(c: Config): nat {
    if c.aclint && c.aia == AplicImsic then ACLINT_MTIMER_SIZE else CLINT.size - ACLINT_SWI_SIZE
  }

  /** What is realised starts where the span does and stays inside it. */
  lemma SpanCovers(c: Config, d: Dev)
    requires Accepted(c)
    ensures WindowOf(c, d).base == SpanOf(c, d).base && WindowOf(c, d).size <= SpanOf(c, d).size
  {
    if d.ImsicS? {
      FieldsFit(c, false);
      AtMostTimes(1 + c.guests, Pow2(GuestBits(c, false)), IMSIC_PAGE_SIZE);
    }
  }

  lemma ImsicInStretch(c: Config, d: Dev)
    requires Accepted(c) && Present(c, d) && (d.ImsicM? || d.ImsicS?)
    ensures StretchStart(Stretch(d)) <= SpanOf(c, d).base
    ensures SpanOf(c, d).base + SpanOf(c, d).size <= StretchStart(Stretch(d) + 1)
  {
    if d.ImsicM? {
      Pow2Values();
      ImsicSlot(c, true, d.socket, d.hart, 1);
    } else {
      ImsicSlot(c, false, d.socket, d.hart, Pow2(GuestBits(c, false)));
    }
  }

  /** The high window is aligned, so it starts at 0 or above everything below RAM. */
  lemma HighPcieZeroOrHigh(c: Config)
    requires Accepted(c)
    ensures HighPcieWindow(c).base == 0 || HighPcieWindow(c).base >= HIGH_PCIE_32.base
    ensures RamFits(c) ==> HighPcieWindow(c).base != 0
  {
    HighPcieAboveRam(c);
    RoundUpExact(DRAM_BASE + c.ram);
  }

  lemma InStretch(c: Config, d: Dev)
    requires Accepted(c) && Present(c, d) && HighPcieWindow(c).base != 0
    ensures StretchStart(Stretch(d)) <= SpanOf(c, d).base
    ensures Stretch(d) < 17 ==> SpanOf(c, d).base + SpanOf(c, d).size <= StretchStart(Stretch(d) + 1)
  {
    if d.ImsicM? || d.ImsicS? {
      ImsicInStretch(c, d);
    } else {
      HighPcieZeroOrHigh(c);
    }
  }

  lemma StretchesAscend(s: nat, t: nat)
    requires s < t <= 17
    ensures StretchStart(s + 1) <= StretchStart(t)
  {
  }

  /** Two harts' slots: by socket first, then by hart. */
  lemma ImsicSlotsApart(c: Config, mMode: bool, k1: nat, i1: nat, k2: nat, i2: nat, pages: nat)
    requires Accepted(c) && k1 < |c.socs| && i1 < c.socs[k1].numHarts
    requires k2 < |c.socs| && i2 < c.socs[k2].numHarts
    requires pages <= Pow2(GuestBits(c, mMode))
    requires k1 < k2 || (k1 == k2 && i1 < i2)
    ensures var g := GuestBits(c, mMode);
            PageAddress(ImsicBase(mMode), g, k1, i1, 0) + pages * IMSIC_PAGE_SIZE
            <= PageAddress(ImsicBase(mMode), g, k2, i2, 0)
  {
    var h := HartSize(GuestBits(c, mMode));
    ImsicSlot(c, mMode, k1, i1, pages);
    ImsicSlot(c, mMode, k2, i2, pages);
    if k1 == k2 {
      AtMostTimes(i1 + 1, i2, h);
    }
  }

  lemma FilesApart(c: Config, mMode: bool, k1: nat, i1: nat, k2: nat, i2: nat)
    requires Accepted(c) && k1 < |c.socs| && i1 < c.socs[k1].numHarts
    requires k2 < |c.socs| && i2 < c.socs[k2].numHarts && (k1 != k2 || i1 != i2)
    ensures var g := GuestBits(c, mMode);
            Apart(Window(PageAddress(ImsicBase(mMode), g, k1, i1, 0), HartSize(g)),
                  Window(PageAddress(ImsicBase(mMode), g, k2, i2, 0), HartSize(g)))
  {
    if k1 < k2 || (k1 == k2 && i1 < i2) {
      ImsicSlotsApart(c, mMode, k1, i1, k2, i2, Pow2(GuestBits(c, mMode)));
    } else {
      ImsicSlotsApart(c, mMode, k2, i2, k1, i1, Pow2(GuestBits(c, mMode)));
    }
  }

  lemma SameStretchApart(c: Config, d: Dev, e: Dev)
    requires Accepted(c) && Present(c, d) && Present(c, e) && d != e && Stretch(d) == Stretch(e)
    requires RamFits(c) || (!d.Ram? && !e.Ram?)
    ensures Apart(SpanOf(c, d), SpanOf(c, e))
  {
    if d.ImsicM? {
      Pow2Values();
      FilesApart(c, true, d.socket, d.hart, e.socket, e.hart);
    } else if d.ImsicS? {
      FilesApart(c, false, d.socket, d.hart, e.socket, e.hart);
    } else if d.Ram? || d.HighPcie? {
      HighPcieAboveRam(c);
    } else {
      FixedApart(c, d, e);
    }
  }

  lemma FixedApart(c: Config, d: Dev, e: Dev)
    requires Accepted(c) && Present(c, d) && Present(c, e) && d != e && Stretch(d) == Stretch(e)
    requires !d.ImsicM? && !d.ImsicS? && !d.Ram? && !d.HighPcie?
    ensures Apart(SpanOf(c, d), SpanOf(c, e))
  {
  }

  /** No two spans of a configuration overlap, RAM's only if RAM fits. */
  lemma SpansApart(c: Config, d: Dev, e: Dev)
    requires Accepted(c) && Present(c, d) && Present(c, e) && d != e
    requires HighPcieWindow(c).base != 0 && (RamFits(c) || (!d.Ram? && !e.Ram?))
    ensures Apart(SpanOf(c, d), SpanOf(c, e))
  {
    if Stretch(d) == Stretch(e) {
      SameStretchApart(c, d, e);
    } else {
      InStretch(c, d);
      InStretch(c, e);
      if Stretch(d) < Stretch(e) {
        StretchesAscend(Stretch(d), Stretch(e));
      } else {
        StretchesAscend(Stretch(e), Stretch(d));
      }
    }
  }

  /** No two devices of a configuration share an address. */
  lemma WindowsApart(c: Config, d: Dev, e: Dev)
    requires Accepted(c) && Present(c, d) && Present(c, e) && RamFits(c) && d != e
    ensures Apart(WindowOf(c, d), WindowOf(c, e))
  {
    HighPcieZeroOrHigh(c);
    SpansApart(c, d, e);
    SpanCovers(c, d);
    SpanCovers(c, e);
  }

  /** All windows are pairwise disjoint exactly when RAM fits: past that RAM of 32-bit harts runs into the high
      PCIe window, and the window of 64-bit harts wraps round onto the boot ROM or into RAM. */
  lemma AllApartIff(c: Config)
    requires Accepted(c)
    ensures RamFits(c)
            <==> forall d, e :: Present(c, d) && Present(c, e) && d != e ==> Apart(WindowOf(c, d), WindowOf(c, e))
  {
    if RamFits(c) {
      forall d, e | Present(c, d) && Present(c, e) && d != e
        ensures Apart(WindowOf(c, d), WindowOf(c, e))
      {
        WindowsApart(c, d, e);
      }
    } else {
      assert Present(c, HighPcie) && Present(c, Ram) && Present(c, Mrom);
      assert !Apart(WindowOf(c, HighPcie), WindowOf(c, Ram)) || !Apart(WindowOf(c, HighPcie), WindowOf(c, Mrom));
    }
  }

  /** A hart's interrupt files are realised for exactly its own level's guests: page j of the slot lies in the
      window if and only if there is a file j. */
  lemma FilePagesExact(c: Config, mMode: bool, k: nat, i: nat, j: nat)
    ensures var w := WindowOf(c, if mMode then ImsicM(k, i) else ImsicS(k, i));
            PageAddress(ImsicBase(mMode), GuestBits(c, mMode), k, i, j) + 4096 <= w.base + w.size
            <==> j <= if mMode then 0 else c.guests
  {
  }

  /** The two flash devices are the halves of the flash window. */
  lemma FlashesTile(c: Config)
    ensures WindowOf(c, Flash(0)).base == FLASH.base
    ensures WindowOf(c, Flash(1)).base == WindowOf(c, Flash(0)).base + WindowOf(c, Flash(0)).size
    ensures WindowOf(c, Flash(1)).base + WindowOf(c, Flash(1)).size == FLASH.base + FLASH.size
    ensures WindowOf(c, Flash(0)).size == WindowOf(c, Flash(1)).size
  {
  }

  /** The pages of an S-level file fill the hart's slot exactly when the file count is a power of two. */
  lemma SlotFilledIff(c: Config)
    requires Accepted(c)
    ensures (1 + c.guests) * IMSIC_PAGE_SIZE == HartSize(GuestBits(c, false))
            <==> c.guests == 0 || c.guests == 1 || c.guests == 3 || c.guests == 7
  {
    Pow2Values();
    FieldsFit(c, false);
    var g := GuestBits(c, false);
    SlotSpan(g, 1);
    BitsSpec(c.guests + 1);
    BitsLeast(c.guests + 1, if c.guests == 0 then 0 else if c.guests == 1 then 1 else if c.guests <= 3 then 2 else 3);
  }
}
