/** The compressed PCIe interrupt table and the masked lookup the guest performs on it (section 2.4.3 of
    the Devicetree Specification). Cells are held as numbers; the byte swap of each cell is not modelled. */
module PcieIrqMap {
  import opened Arithmetic
  import opened Board

  const PCI_ADDR_CELLS := 3
  const PCI_INT_CELLS := 1
  const MAX_INT_CELLS := 2
  const MAX_WIDTH := PCI_ADDR_CELLS + PCI_INT_CELLS + 1 + MAX_INT_CELLS
  const ROWS := GPEX_NUM_IRQS * GPEX_NUM_IRQS

  /** PCI_SLOT */
  function SlotOf(devfn: nat): nat {
    devfn / 8 % 32
  }

  function Stride(aia: Aia): nat {
    if aia == NoAia then MAX_WIDTH - 1 else MAX_WIDTH
  }

  /** The row for device number r / 4 and interrupt pin r % 4 (counted from 0). */
  function Row(r: nat, aia: Aia, irqchip: nat): (row: seq<nat>)
    ensures |row| == Stride(aia)
  {
    var dev, pin := r / GPEX_NUM_IRQS, r % GPEX_NUM_IRQS;
    [dev * 0x800, 0, 0, pin + 1, irqchip, PCIE_IRQ + (pin + dev) % GPEX_NUM_IRQS]
    + if aia == NoAia then [] else [0x4]
  }

  /** The first `rows` rows, cell by cell. */
  function Table(rows: nat, aia: Aia, irqchip: nat): (t: seq<nat>)
    ensures |t| == rows * Stride(aia)
  {
    seq<nat>(rows * Stride(aia), j requires 0 <= j => Row(j / Stride(aia), aia, irqchip)[j % Stride(aia)])
  }

  /** Row r of a flat table, if the table is that long. */
  function RowAt(t: seq<nat>, r: nat, stride: nat): seq<nat> {
    if r * stride + stride <= |t| then t[r * stride..r * stride + stride] else []
  }

  /** Cell i of row r, found at offset `base`. */
  lemma TableCell(rows: nat, r: nat, i: nat, aia: Aia, irqchip: nat, base: nat)
    requires r < rows && i < Stride(aia) && base == r * Stride(aia)
    ensures base + Stride(aia) <= |Table(rows, aia, irqchip)|
    ensures Table(rows, aia, irqchip)[base + i] == Row(r, aia, irqchip)[i]
  {
    AtMostTimes(r + 1, rows, Stride(aia));
    DivModUnique(base + i, Stride(aia), r, i);
  }

  lemma SliceIs(t: seq<nat>, base: nat, row: seq<nat>)
    requires base + |row| <= |t| && forall i :: 0 <= i < |row| ==> t[base + i] == row[i]
    ensures t[base..base + |row|] == row
  {
  }

  lemma TableRow(rows: nat, r: nat, aia: Aia, irqchip: nat)
    requires r < rows
    ensures RowAt(Table(rows, aia, irqchip), r, Stride(aia)) == Row(r, aia, irqchip)
  {
    var base, t, row := r * Stride(aia), Table(rows, aia, irqchip), Row(r, aia, irqchip);
    TableCell(rows, r, 0, aia, irqchip, base);
    forall i | 0 <= i < |row|
      ensures t[base + i] == row[i]
    {
      TableCell(rows, r, i, aia, irqchip, base);
    }
    SliceIs(t, base, row);
  }

  /** A longer table starts with the shorter one. */
  lemma TableStarts(rows: nat, aia: Aia, irqchip: nat)
    ensures |Table(rows + 1, aia, irqchip)| == |Table(rows, aia, irqchip)| + Stride(aia)
    ensures Table(rows + 1, aia, irqchip)[..|Table(rows, aia, irqchip)|] == Table(rows, aia, irqchip)
  {
    assert (rows + 1) * Stride(aia) == rows * Stride(aia) + Stride(aia);
  }

  lemma TableGrows(rows: nat, aia: Aia, irqchip: nat)
    ensures Table(rows + 1, aia, irqchip) == Table(rows, aia, irqchip) + Row(rows, aia, irqchip)
  {
    TableStarts(rows, aia, irqchip);
    TableRow(rows + 1, rows, aia, irqchip);
    var t, n := Table(rows + 1, aia, irqchip), |Table(rows, aia, irqchip)|;
    assert t == t[..n] + t[n..n + Stride(aia)];
  }

  lemma RoomForRow(rows: nat, aia: Aia, irqchip: nat)
    requires rows < ROWS
    ensures |Table(rows, aia, irqchip)| + MAX_WIDTH <= ROWS * MAX_WIDTH
  {
    AtMostTimes(rows, ROWS - 1, Stride(aia));
  }

  lemma RowOf(dev: nat, pin: nat, aia: Aia, irqchip: nat)
    requires dev < GPEX_NUM_IRQS && pin < GPEX_NUM_IRQS
    ensures SlotOf(dev * 0x8) == dev
    ensures Row(dev * GPEX_NUM_IRQS + pin, aia, irqchip)
            == [dev * 0x800, 0, 0, pin + 1, irqchip, PCIE_IRQ + (pin + dev) % GPEX_NUM_IRQS]
               + if aia == NoAia then [] else [0x4]
  {
  }

  // ---------- building ----------

  /** Writes one row at the current offset and returns its width. */
  method FillRow(full: array<nat>, at: nat, dev: nat, pin: nat, aia: Aia, irqchip: nat) returns (i: nat)
    requires dev < GPEX_NUM_IRQS && pin < GPEX_NUM_IRQS
    requires at + MAX_WIDTH <= full.Length && forall j :: at <= j < full.Length ==> full[j] == 0
    modifies full
    ensures i == Stride(aia)
    ensures full[..at + i] == old(full[..at]) + Row(dev * GPEX_NUM_IRQS + pin, aia, irqchip)
    ensures forall j :: at + i <= j < full.Length ==> full[j] == 0
  {
    var devfn := dev * 0x8;
    var irq := PCIE_IRQ + (pin + SlotOf(devfn)) % GPEX_NUM_IRQS;
    i := 0;
    full[at + i] := devfn * 0x100;
    i := i + PCI_ADDR_CELLS;
    full[at + i] := pin + 1;
    i := i + PCI_INT_CELLS;
    full[at + i] := irqchip;
    i := i + 1;
    full[at + i] := irq;
    i := i + 1;
    if aia != NoAia {
      full[at + i] := 0x4;
      i := i + 1;
    }
    RowCells(full[..], at, dev, pin, aia, irqchip);
    assert full[..][..at] == old(full[..])[..at];
    RowWritten(full[..], old(full[..]), at, Row(dev * GPEX_NUM_IRQS + pin, aia, irqchip));
  }

  lemma RowCells(now: seq<nat>, at: nat, dev: nat, pin: nat, aia: Aia, irqchip: nat)
    requires dev < GPEX_NUM_IRQS && pin < GPEX_NUM_IRQS && at + MAX_WIDTH <= |now|
    requires now[at] == dev * 0x8 * 0x100 && now[at + 1] == 0 && now[at + 2] == 0 && now[at + 3] == pin + 1
    requires now[at + 4] == irqchip && now[at + 5] == PCIE_IRQ + (pin + SlotOf(dev * 0x8)) % GPEX_NUM_IRQS
    requires aia != NoAia ==> now[at + 6] == 0x4
    ensures now[at..at + Stride(aia)] == Row(dev * GPEX_NUM_IRQS + pin, aia, irqchip)
  {
    RowOf(dev, pin, aia, irqchip);
  }

  lemma RowWritten(now: seq<nat>, before: seq<nat>, at: nat, row: seq<nat>)
    requires |now| == |before| && at + |row| <= |now|
    requires now[..at] == before[..at]
    requires now[at..at + |row|] == row
    ensures now[..at + |row|] == before[..at] + row
  {
  }

  /** The first `at` cells are the first `rows` rows; the others are still zero. */
  predicate Written(full: seq<nat>, at: nat, rows: nat, aia: Aia, irqchip: nat) {
    at <= |full| && full[..at] == Table(rows, aia, irqchip) && forall j :: at <= j < |full| ==> full[j] == 0
  }

  method NextRow(full: array<nat>, at: nat, dev: nat, pin: nat, aia: Aia, irqchip: nat) returns (i: nat)
    requires dev < GPEX_NUM_IRQS && pin < GPEX_NUM_IRQS && full.Length == ROWS * MAX_WIDTH
    requires Written(full[..], at, dev * GPEX_NUM_IRQS + pin, aia, irqchip)
    modifies full
    ensures i == Stride(aia) && Written(full[..], at + i, dev * GPEX_NUM_IRQS + pin + 1, aia, irqchip)
  {
    ghost var r, before := dev * GPEX_NUM_IRQS + pin, full[..];
    assert at == |before[..at]|;
    RoomForRow(r, aia, irqchip);
    assert forall j :: at <= j < full.Length ==> full[j] == before[j];
    i := FillRow(full, at, dev, pin, aia, irqchip);
    TableGrows(r, aia, irqchip);
  }

  /** The inner loop: the four pins of one device number. The first row written fixes the stride. */
  method FillPins(full: array<nat>, start: nat, stride0: nat, dev: nat, aia: Aia, irqchip: nat)
    returns (at: nat, stride: nat)
    requires dev < GPEX_NUM_IRQS && full.Length == ROWS * MAX_WIDTH
    requires stride0 == if dev == 0 then 0 else Stride(aia)
    requires Written(full[..], start, dev * GPEX_NUM_IRQS, aia, irqchip)
    modifies full
    ensures stride == Stride(aia) && Written(full[..], at, (dev + 1) * GPEX_NUM_IRQS, aia, irqchip)
  {
    at, stride := start, stride0;
    var pin := 0;
    while pin < GPEX_NUM_IRQS
      invariant 0 <= pin <= GPEX_NUM_IRQS
      invariant stride == if dev == 0 && pin == 0 then 0 else Stride(aia)
      invariant Written(full[..], at, dev * GPEX_NUM_IRQS + pin, aia, irqchip)
    {
      var i := NextRow(full, at, dev, pin, aia, irqchip);
      if stride == 0 {
        stride := i;
      }
      at := at + stride;
      pin := pin + 1;
    }
  }

  /** Fills the flat array row by row through a moving offset and publishes what was written. */
  method CreatePcieIrqMap(aia: Aia, irqchip: nat) returns (published: seq<nat>)
    ensures published == Table(ROWS, aia, irqchip)
    ensures |published| == ROWS * Stride(aia) <= ROWS * MAX_WIDTH
  {
    var full := new nat[ROWS * MAX_WIDTH](_ => 0);
    var stride, at, dev := 0, 0, 0;
    while dev < GPEX_NUM_IRQS
      invariant 0 <= dev <= GPEX_NUM_IRQS
      invariant stride == if dev == 0 then 0 else Stride(aia)
      invariant Written(full[..], at, dev * GPEX_NUM_IRQS, aia, irqchip)
    {
      at, stride := FillPins(full, at, stride, dev, aia, irqchip);
      dev := dev + 1;
    }
    published := full[..GPEX_NUM_IRQS * GPEX_NUM_IRQS * stride];
  }

  // ---------- looking up ----------

  /** The first address cell of a function's unit address. */
  function UnitAddress(bus: nat, slot: nat, func: nat): nat {
    bus * 0x1_0000 + slot * 0x800 + func * 0x100
  }

  /** Bits 11 and 12: the mask 0x1800 of the published interrupt-map-mask. */
  function Mask1800(v: nat): nat {
    v / 0x800 % 4 * 0x800
  }

  /** The mask 0x7. */
  function Mask7(v: nat): nat {
    v % 8
  }

  /** Does row r match the masked unit address and interrupt specifier? The middle and low address cells
      are masked with 0. */
  predicate Matches(t: seq<nat>, stride: nat, r: nat, address: nat, pin: nat) {
    RowMatches(RowAt(t, r, stride), address, pin)
  }

  predicate RowMatches(row: seq<nat>, address: nat, pin: nat) {
    |row| >= 6 && row[0] == Mask1800(address) && row[1] == 0 && row[2] == 0 && row[3] == Mask7(pin)
  }

  /** The controller cells of a row, read as one phandle and then its interrupt specifier: a controller's unit
      address takes no cells in between. The PLIC node announces 0 such cells and the APLIC node announces none. */
  function Specifier(t: seq<nat>, stride: nat, r: nat): seq<nat> {
    var row := RowAt(t, r, stride);
    if |row| >= 4 then row[4..] else []
  }

  /** Sixteen rows stand for the whole bus: every function's pin matches exactly one row, and that row
      names the controller and the line the standard swizzle gives. */
  lemma LookupIsSwizzle(aia: Aia, irqchip: nat, bus: nat, slot: nat, func: nat, pin: nat) returns (r: nat)
    requires bus < 256 && slot < 32 && func < 8 && 1 <= pin <= 4
    ensures r < ROWS
    ensures forall q :: 0 <= q < ROWS
                        ==> (Matches(Table(ROWS, aia, irqchip), Stride(aia), q, UnitAddress(bus, slot, func), pin)
                             <==> q == r)
    ensures Specifier(Table(ROWS, aia, irqchip), Stride(aia), r)
            == [irqchip, PCIE_IRQ + (pin - 1 + slot) % GPEX_NUM_IRQS] + if aia == NoAia then [] else [0x4]
  {
    r := slot % 4 * GPEX_NUM_IRQS + (pin - 1);
    OneRowMatches(aia, irqchip, bus, slot, func, pin, r);
    SpecifierSwizzled(aia, irqchip, slot, pin, r);
  }

  lemma SpecifierSwizzled(aia: Aia, irqchip: nat, slot: nat, pin: nat, r: nat)
    requires 1 <= pin <= 4 && r == slot % 4 * GPEX_NUM_IRQS + (pin - 1)
    ensures Specifier(Table(ROWS, aia, irqchip), Stride(aia), r)
            == [irqchip, PCIE_IRQ + (pin - 1 + slot) % GPEX_NUM_IRQS] + if aia == NoAia then [] else [0x4]
  {
    SpecifierOf(aia, irqchip, slot % 4, pin - 1);
    SwizzleOf(slot, pin - 1);
  }

  lemma OneRowMatches(aia: Aia, irqchip: nat, bus: nat, slot: nat, func: nat, pin: nat, r: nat)
    requires slot < 32 && func < 8 && 1 <= pin <= 4 && r == slot % 4 * GPEX_NUM_IRQS + (pin - 1)
    ensures forall q :: 0 <= q < ROWS
                        ==> (Matches(Table(ROWS, aia, irqchip), Stride(aia), q, UnitAddress(bus, slot, func), pin)
                             <==> q == r)
  {
    MaskedAddress(bus, slot, func);
    forall q | 0 <= q < ROWS
      ensures Matches(Table(ROWS, aia, irqchip), Stride(aia), q, UnitAddress(bus, slot, func), pin) <==> q == r
    {
      MatchesIff(aia, irqchip, UnitAddress(bus, slot, func), slot, pin, q);
    }
  }

  lemma MatchesIff(aia: Aia, irqchip: nat, address: nat, slot: nat, pin: nat, q: nat)
    requires Mask1800(address) == slot % 4 * 0x800 && 1 <= pin <= 4 && q < ROWS
    ensures Matches(Table(ROWS, aia, irqchip), Stride(aia), q, address, pin)
            <==> q == slot % 4 * GPEX_NUM_IRQS + (pin - 1)
  {
    TableRow(ROWS, q, aia, irqchip);
    RowMatchesIff(aia, irqchip, address, slot, pin, q);
  }

  lemma SpecifierOf(aia: Aia, irqchip: nat, dev: nat, pin: nat)
    requires dev < GPEX_NUM_IRQS && pin < GPEX_NUM_IRQS
    ensures Specifier(Table(ROWS, aia, irqchip), Stride(aia), dev * GPEX_NUM_IRQS + pin)
            == [irqchip, PCIE_IRQ + (pin + dev) % GPEX_NUM_IRQS] + if aia == NoAia then [] else [0x4]
  {
    TableRow(ROWS, dev * GPEX_NUM_IRQS + pin, aia, irqchip);
    RowOf(dev, pin, aia, irqchip);
  }

  lemma RowMatchesIff(aia: Aia, irqchip: nat, address: nat, slot: nat, pin: nat, q: nat)
    requires Mask1800(address) == slot % 4 * 0x800 && 1 <= pin <= 4
    ensures RowMatches(Row(q, aia, irqchip), address, pin) <==> q == slot % 4 * GPEX_NUM_IRQS + (pin - 1)
  {
  }

  lemma SwizzleOf(slot: nat, pin: nat)
    ensures (pin + slot % 4) % GPEX_NUM_IRQS == (pin + slot) % GPEX_NUM_IRQS
  {
  }

  /** A row's address cells are the unit address of function 0 of its device number on bus 0. */
  lemma RowAddress(r: nat, aia: Aia, irqchip: nat)
    requires r < 16
    ensures Row(r, aia, irqchip)[..3] == [UnitAddress(0, r / 4, 0), 0, 0]
  {
  }

  lemma MaskedAddress(bus: nat, slot: nat, func: nat)
    requires slot < 32 && func < 8
    ensures Mask1800(UnitAddress(bus, slot, func)) == slot % 4 * 0x800
  {
    var v := bus * 32 + slot;
    assert UnitAddress(bus, slot, func) == v * 0x800 + func * 0x100;
    assert UnitAddress(bus, slot, func) / 0x800 == v;
    assert v % 4 == slot % 4;
  }
}
