/** finalize_fdt and the builders it calls: a phandle counter threaded through backward loops over sockets
    and harts, and cell arrays filled in place. Each builder is shown to append the nodes of DeviceTree. */
module FdtBuilder {
  import opened Options
  import opened Board
  import opened Imsic
  import opened AddressSpace
  import opened PcieIrqMap
  import opened DeviceTree
  import opened TreeWalk

  const MAX_NODES := 128

  lemma LinesOneMore(all: seq<nat>, cpu: nat, irq: nat, done: seq<nat>, now: seq<nat>)
    requires cpu < |all| && done == Lines(all[..cpu], [irq]) && now == done + [all[cpu], irq]
    ensures now == Lines(all[..cpu + 1], [irq])
  {
    assert all[..cpu + 1] == all[..cpu] + [all[cpu]];
    LinesSnoc(all[..cpu], all[cpu], [irq]);
    HartLinesOne(all[cpu], irq);
  }

  lemma LinesTwoMore(all: seq<nat>, cpu: nat, a: nat, b: nat, done: seq<nat>, half: seq<nat>, now: seq<nat>)
    requires cpu < |all| && done == Lines(all[..cpu], [a, b])
    requires half == done + [all[cpu], a] && now == half + [all[cpu], b]
    ensures now == Lines(all[..cpu + 1], [a, b])
  {
    assert all[..cpu + 1] == all[..cpu] + [all[cpu]];
    LinesSnoc(all[..cpu], all[cpu], [a, b]);
    HartLinesTwo(all[cpu], a, b);
    assert now == done + [all[cpu], a, all[cpu], b];
  }

  lemma LinesSnoc(ps: seq<nat>, p: nat, irqs: seq<nat>)
    ensures Lines(ps + [p], irqs) == Lines(ps, irqs) + HartLines(p, irqs)
  {
    assert (ps + [p])[..|ps|] == ps;
  }

  method PutPair(cells: array<nat>, at: nat, p: nat, irq: nat)
    requires at + 2 <= cells.Length
    modifies cells
    ensures cells[..at + 2] == old(cells[..at]) + [p, irq]
  {
    cells[at + 0] := p;
    cells[at + 1] := irq;
  }

  /** The cells[cpu * 2 + ...] loops over the phandles of some harts' controllers. */
  method TwoCells(intcs: seq<nat>, irq: nat) returns (cells: array<nat>)
    ensures fresh(cells) && cells[..] == Lines(intcs, [irq])
  {
    var harts := |intcs|;
    cells := new nat[harts * 2](_ => 0);
    var cpu := 0;
    while cpu < harts
      invariant 0 <= cpu <= harts
      invariant cells[..cpu * 2] == Lines(intcs[..cpu], [irq])
    {
      ghost var done := cells[..cpu * 2];
      PutPair(cells, cpu * 2 + 0, intcs[cpu], irq);
      ghost var now := cells[..cpu * 2 + 2];
      assert now == done + [intcs[cpu], irq];
      LinesOneMore(intcs, cpu, irq, done, now);
      cpu := cpu + 1;
    }
    assert intcs[..harts] == intcs;
    assert cells[..] == cells[..harts * 2];
  }

  /** The cells[cpu * 4 + ...] loops. */
  method FourCells(intcs: seq<nat>, irqA: nat, irqB: nat) returns (cells: array<nat>)
    ensures fresh(cells) && cells[..] == Lines(intcs, [irqA, irqB])
  {
    var harts := |intcs|;
    cells := new nat[harts * 4](_ => 0);
    var cpu := 0;
    while cpu < harts
      invariant 0 <= cpu <= harts
      invariant cells[..cpu * 4] == Lines(intcs[..cpu], [irqA, irqB])
    {
      ghost var done := cells[..cpu * 4];
      PutPair(cells, cpu * 4 + 0, intcs[cpu], irqA);
      ghost var half := cells[..cpu * 4 + 2];
      PutPair(cells, cpu * 4 + 2, intcs[cpu], irqB);
      LinesTwoMore(intcs, cpu, irqA, irqB, done, half, cells[..cpu * 4 + 4]);
      cpu := cpu + 1;
    }
    assert intcs[..harts] == intcs;
    assert cells[..] == cells[..harts * 4];
  }

  /** Entries lo .. hi hold their closed-form phandles; the others are as before. */
  predicate Numbered(c: Config, s: seq<nat>, before: seq<nat>, lo: nat, hi: nat) {
    && lo <= hi <= Cpus(c) == |s| == |before|
    && forall j :: 0 <= j < |s| ==> s[j] == if lo <= j < hi then 2 * (Cpus(c) - j) else before[j]
  }

  lemma NumberedStep(c: Config, s: seq<nat>, before: seq<nat>, lo: nat, hi: nat)
    requires Numbered(c, s, before, lo + 1, hi)
    ensures Numbered(c, s[lo := IntcPhandle(c, lo)], before, lo, hi)
  {
  }

  /** Every entry from `pos` on holds its closed-form phandle. */
  predicate Filled(c: Config, s: seq<nat>, pos: nat) {
    pos <= Cpus(c) == |s| && forall j :: pos <= j < |s| ==> s[j] == 2 * (Cpus(c) - j)
  }

  lemma FilledFurther(c: Config, s: seq<nat>, before: seq<nat>, lo: nat, hi: nat)
    requires Numbered(c, s, before, lo, hi) && Filled(c, before, hi)
    ensures Filled(c, s, lo)
  {
  }

  lemma FilledSlice(c: Config, s: seq<nat>, lo: nat, n: nat)
    requires Filled(c, s, lo) && lo + n <= Cpus(c)
    ensures s[lo..lo + n] == Intcs(c, lo, n)
  {
    forall i | 0 <= i < n
      ensures s[lo..lo + n][i] == Intcs(c, lo, n)[i]
    {
      assert s[lo + i] == IntcPhandle(c, lo + i);
    }
  }

  /** Entries k and up name their sockets' controllers. */
  ghost predicate Routed(c: Config, s: seq<nat>, k: nat) {
    |c.socs| <= XplicSockets(c) && |c.socs| <= |s|
    && forall j :: k <= j < |c.socs| ==> s[j] == XplicPhandle(c, j)
  }

  lemma RoutedStep(c: Config, s: seq<nat>, k: nat)
    requires Routed(c, s, k + 1) && k < |c.socs|
    ensures Routed(c, s[k := XplicPhandle(c, k)], k)
  {
    var t := s[k := XplicPhandle(c, k)];
    forall j | k <= j < |c.socs|
      ensures t[j] == XplicPhandle(c, j)
    {
      if j > k { assert t[j] == s[j]; }
    }
  }

  lemma SocketsGrow(c: Config, start: seq<Node>, k: nat)
    requires k < |c.socs|
    ensures (start + SocketsFrom(c, k + 1)) + SocketNodes(c, k) == start + SocketsFrom(c, k)
  {
  }

  lemma XplicsGrow(c: Config, start: seq<Node>, k: nat)
    requires 1 <= |c.socs| && k < XplicSockets(c)
    ensures (start + XplicsFrom(c, k + 1)) + XplicNodes(c, k) == start + XplicsFrom(c, k)
  {
  }

  lemma ControllersJoin(c: Config, start: seq<Node>)
    requires 1 <= |c.socs|
    ensures (start + (SocketsFrom(c, 0) + ImsicNodes(c))) + XplicsFrom(c, 0) == start + ControllerNodes(c)
  {
  }

  class Fdt {
    const c: Config
    var phandle: nat
    var nodes: seq<Node>

    constructor (c: Config)
      ensures this.c == c && phandle == 1 && nodes == []
    {
      this.c := c;
      phandle := 1;
      nodes := [];
    }

    method Append(n: Node)
      modifies this`nodes
      ensures nodes == old(nodes) + [n]
    {
      nodes := nodes + [n];
    }

    /** (*phandle)++ */
    method Issue() returns (p: nat)
      modifies this`phandle
      ensures p == old(phandle) && phandle == p + 1
    {
      p := phandle;
      phandle := phandle + 1;
    }

    /** One turn of the loop over a socket's harts. */
    method CreateCpu(k: nat, i: nat, intc: array<nat>, pos: nat)
      requires k < |c.socs| && i < c.socs[k].numHarts && pos == Pos(c, k) && intc.Length == Cpus(c)
      requires phandle == CounterAt(c, pos + i + 1)
      modifies this, intc
      ensures phandle == CounterAt(c, pos + i)
      ensures pos + i < Cpus(c) && intc[..] == old(intc[..])[pos + i := IntcPhandle(c, pos + i)]
      ensures nodes == old(nodes) + HartNodes(c, k, i)
    {
      SliceInside(c, k);
      var cpu := Issue();
      Append(Cpu(c.socs[k].hartBase + i, k, cpu));
      intc[pos + i] := Issue();
      Append(CpuIntc(c.socs[k].hartBase + i, intc[pos + i]));
      Append(Core(k, i, cpu));
    }

    method CreateSocketCpus(k: nat, intc: array<nat>, pos: nat)
      requires k < |c.socs| && pos == Pos(c, k) && intc.Length == Cpus(c)
      requires phandle == CounterAt(c, Pos(c, k + 1))
      modifies this, intc
      ensures phandle == CounterAt(c, pos)
      ensures nodes == old(nodes) + CpusFrom(c, k, 0)
      ensures Numbered(c, intc[..], old(intc[..]), pos, pos + c.socs[k].numHarts)
    {
      SliceInside(c, k);
      PosStep(c, k);
      ghost var before := intc[..];
      var harts: int := c.socs[k].numHarts;
      var cpu: int := harts - 1;
      while cpu >= 0
        invariant -1 <= cpu < harts
        invariant phandle == CounterAt(c, pos + (cpu + 1))
        invariant nodes == old(nodes) + CpusFrom(c, k, cpu + 1)
        invariant Numbered(c, intc[..], before, pos + (cpu + 1), pos + harts)
      {
        NumberedStep(c, intc[..], before, pos + cpu, pos + harts);
        CreateCpu(k, cpu, intc, pos);
        cpu := cpu - 1;
      }
    }

    method CreateSocketClint(k: nat, intcs: seq<nat>)
      requires k < |c.socs| && intcs == SocketIntcs(c, k)
      modifies this`nodes
      ensures nodes == old(nodes) + [ClintNode(c, k)]
    {
      var cells := FourCells(intcs, IRQ_M_SOFT, IRQ_M_TIMER);
      var addr := CLINT.base + CLINT.size * k;
      Append(Timer(Clint, k, [Window(addr, CLINT.size)], cells[..]));
    }

    method CreateMtimer(k: nat, cells: seq<nat>)
      requires k < |c.socs| && cells == Lines(SocketIntcs(c, k), [IRQ_M_TIMER])
      modifies this`nodes
      ensures nodes == old(nodes) + [MtimerNode(c, k)]
    {
      var addr, size;
      if c.aia == AplicImsic {
        addr := CLINT.base + ACLINT_MTIMER_SIZE * k;
        size := ACLINT_MTIMER_SIZE;
      } else {
        addr := CLINT.base + ACLINT_SWI_SIZE + CLINT.size * k;
        size := CLINT.size - ACLINT_SWI_SIZE;
      }
      Append(Timer(MtimerTimer, k,
                   [Window(addr + ACLINT_MTIME, size - ACLINT_MTIME), Window(addr + ACLINT_MTIMECMP, ACLINT_MTIME)],
                   cells));
    }

    method CreateSocketAclint(k: nat, intcs: seq<nat>)
      requires k < |c.socs| && intcs == SocketIntcs(c, k)
      requires AclintAllowed(c) && c.aclint
      modifies this`nodes
      ensures nodes == old(nodes) + TimerNodes(c, k)
    {
      var mswi := TwoCells(intcs, IRQ_M_SOFT);
      var mtimer := TwoCells(intcs, IRQ_M_TIMER);
      var sswi := TwoCells(intcs, IRQ_S_SOFT);
      if c.aia != AplicImsic {
        var addr := CLINT.base + CLINT.size * k;
        Append(Timer(Mswi, k, [Window(addr, ACLINT_SWI_SIZE)], mswi[..]));
      }
      CreateMtimer(k, mtimer[..]);
      if c.aia != AplicImsic {
        var addr := ACLINT_SSWI.base + ACLINT_SSWI.size * k;
        Append(Timer(SswiTimer, k, [Window(addr, ACLINT_SSWI.size)], sswi[..]));
      }
    }

    method CreateSocketPlic(k: nat, intcs: seq<nat>, xplic: array<nat>)
      requires Accepted(c) && c.aia == NoAia && k < |c.socs| && intcs == SocketIntcs(c, k)
      requires xplic.Length == MAX_NODES && phandle == PlicPhandle(c, k)
      modifies this, xplic
      ensures phandle == PlicPhandle(c, k) + 1
      ensures nodes == old(nodes) + XplicNodes(c, k)
      ensures xplic[..] == old(xplic[..])[k := XplicPhandle(c, k)]
    {
      xplic[k] := Issue();
      var addr := PLIC.base + PLIC.size * k;
      var cells;
      if c.accel == Kvm {
        cells := TwoCells(intcs, IRQ_S_EXT);
      } else {
        cells := FourCells(intcs, IRQ_M_EXT, IRQ_S_EXT);
      }
      Append(PlicNode(k, [Window(addr, PLIC.size)], cells[..], xplic[k]));
    }

    /** The loop over sockets in create_fdt_one_imsic: one region each, and the fullest socket. */
    method ImsicRegions(base: nat, mMode: bool, guestBits: nat) returns (regs: array<Window>, maxHarts: nat)
      requires base == ImsicBase(mMode) && guestBits == GuestBits(c, mMode)
      ensures fresh(regs) && regs[..] == ImsicRegs(c, mMode) && maxHarts == MaxHarts(c.socs)
    {
      var n := |c.socs|;
      var blank := Window(0, 0);
      regs := new Window[n](_ => blank);
      maxHarts := 0;
      var k := 0;
      while k < n
        invariant 0 <= k <= n
        invariant maxHarts == MaxHarts(c.socs[..k])
        invariant forall j :: 0 <= j < k ==> regs[j] == ImsicRegs(c, mMode)[j]
      {
        var addr := base + k * IMSIC_GROUP_MAX_SIZE;
        var size := HartSize(guestBits) * c.socs[k].numHarts;
        regs[k] := Window(addr, size);
        assert c.socs[..k + 1][..k] == c.socs[..k];
        if maxHarts < c.socs[k].numHarts {
          maxHarts := c.socs[k].numHarts;
        }
        k := k + 1;
      }
      assert c.socs[..n] == c.socs;
    }

    method ImsicIndex(mMode: bool, guestBits: nat, maxHarts: nat) returns (index: Index)
      requires Accepted(c) && guestBits == GuestBits(c, mMode) && maxHarts == MaxHarts(c.socs)
      ensures index == IndexOf(c, mMode)
    {
      var n := |c.socs|;
      index := Index(None, None, None, None);
      if guestBits != 0 {
        index := index.(guestBits := Some(guestBits));
      }
      if n > 1 {
        MaxHartsIsMax(c.socs);
        var hartBits := NumBits(maxHarts);
        var groupBits := NumBits(n);
        index := index.(hartBits := Some(hartBits), groupBits := Some(groupBits),
                        groupShift := Some(IMSIC_GROUP_SHIFT));
      }
    }

    method CreateOneImsic(base: nat, intcs: seq<nat>, msi: nat, mMode: bool, guestBits: nat)
      requires Accepted(c) && intcs == Intcs(c, 0, Cpus(c))
      requires base == ImsicBase(mMode) && guestBits == GuestBits(c, mMode) && msi == ImsicPhandle(c, mMode)
      modifies this`nodes
      ensures nodes == old(nodes) + [OneImsic(c, mMode)]
    {
      var cells := TwoCells(intcs, if mMode then IRQ_M_EXT else IRQ_S_EXT);
      var regs, maxHarts := ImsicRegions(base, mMode, guestBits);
      var index := ImsicIndex(mMode, guestBits, maxHarts);
      Append(ImsicNode(mMode, regs[..], cells[..], index, msi));
    }

    method CreateImsic(intcs: seq<nat>) returns (msiM: nat, msiS: nat)
      requires Accepted(c) && c.aia == AplicImsic && intcs == Intcs(c, 0, Cpus(c))
      requires phandle == 2 * Cpus(c) + 1
      modifies this
      ensures msiM == ImsicPhandle(c, true) && msiS == ImsicPhandle(c, false)
      ensures phandle == BeforeXplics(c) + 1 && nodes == old(nodes) + ImsicNodes(c)
    {
      msiM := Issue();
      msiS := Issue();
      if c.accel != Kvm {
        CreateOneImsic(IMSIC_M_BASE, intcs, msiM, true, 0);
      }
      var guestBits := NumBits(c.guests + 1);
      CreateOneImsic(IMSIC_S_BASE, intcs, msiS, false, guestBits);
    }

    method CreateOneAplic(k: nat, addr: nat, size: nat, msi: nat, intcs: seq<nat>, own: nat, child: nat, mMode: bool)
      requires Accepted(c) && c.aia != NoAia && k < |c.socs| && k < XplicSockets(c) && intcs == AplicIntcs(c, k)
      requires addr == (if mMode then APLIC_M else APLIC_S).base + size * k
      requires size == (if mMode then APLIC_M else APLIC_S).size
      requires c.aia == AplicImsic ==> msi == ImsicPhandle(c, mMode)
      requires own == AplicPhandle(c, mMode, k)
      requires child == if mMode then AplicPhandle(c, false, k) else 0
      modifies this`nodes
      ensures nodes == old(nodes) + [OneAplic(c, mMode, k)]
    {
      var cells := TwoCells(intcs, if mMode then IRQ_M_EXT else IRQ_S_EXT);
      var listed: seq<nat>, parent, delegate := [], None, None;
      if c.aia == Aplic {
        listed := cells[..];
      } else {
        parent := Some(msi);
      }
      if child != 0 {
        delegate := Some(child);
      }
      Append(AplicNode(mMode, k, [Window(addr, size)], listed, parent, delegate, own));
    }

    method CreateSocketAplic(k: nat, msiM: nat, msiS: nat, intcs: seq<nat>, xplic: array<nat>)
      requires Accepted(c) && c.aia != NoAia && k < |c.socs| && k < XplicSockets(c) && intcs == AplicIntcs(c, k)
      requires c.aia == AplicImsic ==> msiM == ImsicPhandle(c, true) && msiS == ImsicPhandle(c, false)
      requires xplic.Length == MAX_NODES && phandle == AplicPhandle(c, true, k)
      modifies this, xplic
      ensures phandle == AplicPhandle(c, false, k) + 1
      ensures nodes == old(nodes) + XplicNodes(c, k)
      ensures xplic[..] == old(xplic[..])[k := XplicPhandle(c, k)]
    {
      var ownM := Issue();
      var ownS := Issue();
      if c.accel != Kvm {
        CreateOneAplic(k, APLIC_M.base + APLIC_M.size * k, APLIC_M.size, msiM, intcs, ownM, ownS, true);
      }
      CreateOneAplic(k, APLIC_S.base + APLIC_S.size * k, APLIC_S.size, msiS, intcs, ownS, 0, false);
      xplic[k] := ownS;
    }

    // ---------- the socket loops ----------

    method CreateTimers(k: nat, intcs: seq<nat>)
      requires k < |c.socs| && intcs == SocketIntcs(c, k)
      modifies this`nodes
      ensures nodes == old(nodes) + TimerNodes(c, k)
    {
      if AclintAllowed(c) && c.aclint {
        CreateSocketAclint(k, intcs);
      } else if c.accel == Tcg {
        CreateSocketClint(k, intcs);
      }
    }

    /** One turn of the first loop of create_fdt_sockets, up to the timers. */
    method CreateCluster(k: nat, intc: array<nat>, pos: nat)
      requires k < |c.socs| && pos == Pos(c, k) && intc.Length == Cpus(c)
      requires phandle == CounterAt(c, Pos(c, k + 1)) && Filled(c, intc[..], Pos(c, k + 1))
      modifies this, intc
      ensures phandle == CounterAt(c, pos) && Filled(c, intc[..], pos)
      ensures nodes == old(nodes) + ([Cluster(k)] + CpusFrom(c, k, 0) + [Memory(k)])
    {
      PosStep(c, k);
      ghost var before := intc[..];
      Append(Cluster(k));
      CreateSocketCpus(k, intc, pos);
      FilledFurther(c, intc[..], before, pos, Pos(c, k + 1));
      Append(Memory(k));
    }

    /** One turn of the first loop of create_fdt_sockets. */
    method CreateSocket(k: nat, intc: array<nat>, pos: nat)
      requires k < |c.socs| && pos == Pos(c, k) && intc.Length == Cpus(c)
      requires phandle == CounterAt(c, Pos(c, k + 1)) && Filled(c, intc[..], Pos(c, k + 1))
      modifies this, intc
      ensures phandle == CounterAt(c, pos) && Filled(c, intc[..], pos)
      ensures nodes == old(nodes) + SocketNodes(c, k)
    {
      CreateCluster(k, intc, pos);
      SliceInside(c, k);
      FilledSlice(c, intc[..], pos, c.socs[k].numHarts);
      CreateTimers(k, intc[pos..pos + c.socs[k].numHarts]);
    }

    /** The first loop of create_fdt_sockets. */
    method CreateSocketNodes(intc: array<nat>)
      requires Accepted(c) && intc.Length == Cpus(c) && phandle == 1
      modifies this, intc
      ensures phandle == 2 * Cpus(c) + 1
      ensures nodes == old(nodes) + SocketsFrom(c, 0)
      ensures intc[..] == Intcs(c, 0, Cpus(c))
    {
      PosEnds(c);
      ghost var start := nodes;
      var pos := Cpus(c);
      var k: int := |c.socs| - 1;
      while k >= 0
        invariant -1 <= k < |c.socs| && 0 <= pos == Pos(c, k + 1)
        invariant phandle == CounterAt(c, pos) && Filled(c, intc[..], pos)
        invariant nodes == start + SocketsFrom(c, k + 1)
      {
        PosStep(c, k);
        pos := pos - c.socs[k].numHarts;
        CreateSocket(k, intc, pos);
        SocketsGrow(c, start, k);
        k := k - 1;
      }
      FilledSlice(c, intc[..], 0, Cpus(c));
      assert intc[..] == intc[..][0..Cpus(c)];
    }

    /** The controller of one socket. */
    method CreateXplic(k: nat, msiM: nat, msiS: nat, intcs: seq<nat>, pos: nat, xplic: array<nat>)
      requires Accepted(c) && !KvmAia(c) && k < |c.socs| && pos == Pos(c, k)
      requires intcs == Intcs(c, 0, Cpus(c))
      requires c.aia == AplicImsic ==> msiM == ImsicPhandle(c, true) && msiS == ImsicPhandle(c, false)
      requires xplic.Length == MAX_NODES
      requires phandle == AfterXplics(c, k + 1)
      modifies this, xplic
      ensures phandle == AfterXplics(c, k)
      ensures nodes == old(nodes) + XplicNodes(c, k)
      ensures xplic[..] == old(xplic[..])[k := XplicPhandle(c, k)]
    {
      SliceInside(c, k);
      var own := intcs[pos..pos + c.socs[k].numHarts];
      assert own == SocketIntcs(c, k);
      if c.aia == NoAia {
        CreateSocketPlic(k, own, xplic);
      } else {
        CreateSocketAplic(k, msiM, msiS, own, xplic);
      }
    }

    /** One turn of the second loop of create_fdt_sockets. */
    method NextXplic(k: nat, msiM: nat, msiS: nat, intcs: seq<nat>, above: nat, xplic: array<nat>,
                     ghost start: seq<Node>)
      returns (pos: nat)
      requires Accepted(c) && !KvmAia(c) && k < |c.socs| && above == Pos(c, k + 1)
      requires intcs == Intcs(c, 0, Cpus(c))
      requires c.aia == AplicImsic ==> msiM == ImsicPhandle(c, true) && msiS == ImsicPhandle(c, false)
      requires xplic.Length == MAX_NODES
      requires phandle == AfterXplics(c, k + 1) && Routed(c, xplic[..], k + 1)
      requires nodes == start + XplicsFrom(c, k + 1)
      modifies this, xplic
      ensures pos == Pos(c, k)
      ensures phandle == AfterXplics(c, k) && Routed(c, xplic[..], k)
      ensures nodes == start + XplicsFrom(c, k)
    {
      PosStep(c, k);
      pos := above - c.socs[k].numHarts;
      RoutedStep(c, xplic[..], k);
      CreateXplic(k, msiM, msiS, intcs, pos, xplic);
      XplicsGrow(c, start, k);
    }

    /** The second loop of create_fdt_sockets; the array is read later only where this wrote it. */
    method CreateXplics(msiM: nat, msiS: nat, intcs: seq<nat>, xplic: array<nat>)
      requires Accepted(c) && !KvmAia(c) && intcs == Intcs(c, 0, Cpus(c))
      requires c.aia == AplicImsic ==> msiM == ImsicPhandle(c, true) && msiS == ImsicPhandle(c, false)
      requires xplic.Length == MAX_NODES && phandle == BeforeXplics(c) + 1
      modifies this, xplic
      ensures phandle == LastPhandle(c)
      ensures nodes == old(nodes) + XplicsFrom(c, 0)
      ensures Routed(c, xplic[..], 0)
    {
      PosEnds(c);
      ghost var start := nodes;
      var pos := Cpus(c);
      var k := |c.socs|;
      while k > 0
        invariant 0 <= k <= |c.socs| && pos == Pos(c, k)
        invariant phandle == AfterXplics(c, k)
        invariant nodes == start + XplicsFrom(c, k)
        invariant Routed(c, xplic[..], k)
      {
        k := k - 1;
        pos := NextXplic(k, msiM, msiS, intcs, pos, xplic, start);
      }
    }

    /** The third loop: which controllers device interrupts go to. */
    method RouteParents(xplic: array<nat>) returns (mmio: nat, pcie: nat, virtio: nat)
      requires Accepted(c) && xplic.Length == MAX_NODES
      requires forall k :: 0 <= k < XplicSockets(c) ==> xplic[k] == XplicPhandle(c, k)
      ensures mmio == XplicPhandle(c, 0) && virtio == XplicPhandle(c, VirtioSocket(c))
      ensures pcie == XplicPhandle(c, PcieSocket(c))
    {
      mmio, pcie, virtio := 1, 1, 1;
      if KvmAia(c) {
        mmio, virtio, pcie := xplic[0], xplic[0], xplic[0];
      } else {
        var k := 0;
        while k < |c.socs|
          invariant 0 <= k <= |c.socs|
          invariant k >= 1 ==> mmio == xplic[0]
          invariant k >= 1 ==> virtio == xplic[if k >= 2 then 1 else 0]
          invariant k >= 1 ==> pcie == xplic[if k >= 3 then 2 else if k == 2 then 1 else 0]
        {
          if k == 0 {
            mmio, virtio, pcie := xplic[k], xplic[k], xplic[k];
          }
          if k == 1 {
            virtio, pcie := xplic[k], xplic[k];
          }
          if k == 2 {
            pcie := xplic[k];
          }
          k := k + 1;
        }
      }
    }

    /** The wired controllers: one APLIC for all harts under KVM's AIA, else one controller per socket. */
    method CreateControllers(msiM: nat, msiS: nat, intcs: seq<nat>, xplic: array<nat>)
      requires Accepted(c) && intcs == Intcs(c, 0, Cpus(c))
      requires c.aia == AplicImsic ==> msiM == ImsicPhandle(c, true) && msiS == ImsicPhandle(c, false)
      requires xplic.Length == MAX_NODES && phandle == BeforeXplics(c) + 1
      modifies this, xplic
      ensures phandle == LastPhandle(c)
      ensures nodes == old(nodes) + XplicsFrom(c, 0)
      ensures forall k :: 0 <= k < XplicSockets(c) ==> xplic[k] == XplicPhandle(c, k)
    {
      if KvmAia(c) {
        CreateSocketAplic(0, msiM, msiS, intcs, xplic);
        assert xplic[..][0] == XplicPhandle(c, 0);
        assert XplicsFrom(c, 1) == [];
      } else {
        CreateXplics(msiM, msiS, intcs, xplic);
        assert forall k :: 0 <= k < |c.socs| ==> xplic[k] == xplic[..][k];
      }
    }

    /** create_fdt_sockets */
    method CreateSockets() returns (mmio: nat, pcie: nat, virtio: nat, msiPcie: nat)
      requires Accepted(c) && phandle == 1
      modifies this
      ensures phandle == LastPhandle(c)
      ensures nodes == old(nodes) + ControllerNodes(c)
      ensures mmio == XplicPhandle(c, 0) && virtio == XplicPhandle(c, VirtioSocket(c))
      ensures pcie == XplicPhandle(c, PcieSocket(c))
      ensures c.aia == AplicImsic ==> msiPcie == ImsicPhandle(c, false)
    {
      ghost var start := nodes;
      var intc := new nat[Cpus(c)](_ => 0);
      var xplic := new nat[MAX_NODES];
      var msiM, msiS;
      msiM, msiS, msiPcie := CreateHarts(intc);
      CreateControllers(msiM, msiS, intc[..], xplic);
      ControllersJoin(c, start);
      mmio, pcie, virtio := RouteParents(xplic);
    }

    /** The part of create_fdt_sockets before the wired controllers. */
    method CreateHarts(intc: array<nat>) returns (msiM: nat, msiS: nat, msiPcie: nat)
      requires Accepted(c) && phandle == 1 && intc.Length == Cpus(c)
      modifies this, intc
      ensures intc[..] == Intcs(c, 0, Cpus(c)) && phandle == BeforeXplics(c) + 1
      ensures nodes == old(nodes) + (SocketsFrom(c, 0) + ImsicNodes(c))
      ensures c.aia == AplicImsic
              ==> msiM == ImsicPhandle(c, true) && msiS == ImsicPhandle(c, false) && msiPcie == msiS
    {
      CreateSocketNodes(intc);
      msiM, msiS, msiPcie := CreateMsi(intc[..]);
    }

    method CreateMsi(intcs: seq<nat>) returns (msiM: nat, msiS: nat, msiPcie: nat)
      requires Accepted(c) && intcs == Intcs(c, 0, Cpus(c)) && phandle == 2 * Cpus(c) + 1
      modifies this
      ensures c.aia == AplicImsic
              ==> msiM == ImsicPhandle(c, true) && msiS == ImsicPhandle(c, false) && msiPcie == msiS
      ensures phandle == BeforeXplics(c) + 1 && nodes == old(nodes) + ImsicNodes(c)
    {
      msiM, msiS, msiPcie := 0, 0, 1;
      if c.aia == AplicImsic {
        msiM, msiS := CreateImsic(intcs);
        msiPcie := msiS;
      }
    }

    // ---------- devices ----------

    method CreateVirtio(parent: nat)
      requires Accepted(c) && parent == XplicPhandle(c, VirtioSocket(c))
      modifies this`nodes
      ensures nodes == old(nodes) + VirtioNodes(c)
    {
      var i := 0;
      while i < VIRTIO_COUNT
        invariant 0 <= i <= VIRTIO_COUNT
        invariant nodes == old(nodes) + VirtioNodes(c)[..i]
      {
        var irq := if c.aia == NoAia then [VIRTIO_IRQ + i] else [VIRTIO_IRQ + i, 0x4];
        Append(Wired(Virtio(i), [Window(VIRTIO.base + i * VIRTIO.size, VIRTIO.size)], parent, irq));
        i := i + 1;
      }
    }

    method CreatePcie(parent: nat, msi: nat)
      requires Accepted(c) && parent == XplicPhandle(c, PcieSocket(c))
      requires c.aia == AplicImsic ==> msi == ImsicPhandle(c, false)
      modifies this`nodes
      ensures nodes == old(nodes) + [PcieNode(c)]
    {
      var irqMap := CreatePcieIrqMap(c.aia, parent);
      Append(Pcie([PCIE_ECAM], [PCIE_PIO, PCIE_MMIO, HighPcieWindow(c)],
                  if c.aia == AplicImsic then Some(msi) else None, irqMap));
    }

    method CreateReset()
      requires phandle == LastPhandle(c)
      modifies this
      ensures phandle == LastPhandle(c) + 1 && nodes == old(nodes) + ResetNodes(c)
    {
      var test := Issue();
      Append(TestNode([TEST], test));
      Append(Syscon(true, test));
      Append(Syscon(false, test));
    }

    method CreateMmioWired(d: Dev, w: Window, irq: nat, parent: nat)
      requires Accepted(c) && parent == XplicPhandle(c, 0)
      modifies this`nodes
      ensures nodes == old(nodes) + [MmioWired(c, d, w, irq)]
    {
      Append(Wired(d, [w], parent, if c.aia == NoAia then [irq] else [irq, 0x4]));
    }

    method CreateDevices(mmio: nat, pcie: nat, virtio: nat, msiPcie: nat)
      requires Accepted(c) && phandle == LastPhandle(c)
      requires mmio == XplicPhandle(c, 0) && virtio == XplicPhandle(c, VirtioSocket(c))
      requires pcie == XplicPhandle(c, PcieSocket(c))
      requires c.aia == AplicImsic ==> msiPcie == ImsicPhandle(c, false)
      modifies this
      ensures phandle == LastPhandle(c) + 1 && nodes == old(nodes) + DeviceNodes(c)
    {
      ghost var start := nodes;
      CreateVirtio(virtio);
      CreatePcie(pcie, msiPcie);
      CreateReset();
      assert nodes == start + (VirtioNodes(c) + [PcieNode(c)] + ResetNodes(c));
      ghost var mid := nodes;
      CreateMmioWired(Uart, UART0, UART0_IRQ, mmio);
      CreateMmioWired(Rtc, RTC, RTC_IRQ, mmio);
      CreateMmioWired(MmioBus, MMIO_BUS, MMIO_BUS_IRQ, mmio);
      assert nodes == mid + WiredNodes(c);
    }

    /** finalize_fdt. The counter ends one past the closed-form last phandle, and the nodes are those of
        the closed-form tree. */
    method Finalize()
      requires Accepted(c) && phandle == 1 && nodes == []
      modifies this
      ensures phandle == LastPhandle(c) + 1 && nodes == Tree(c)
    {
      var mmio, pcie, virtio, msiPcie := CreateSockets();
      CreateDevices(mmio, pcie, virtio, msiPcie);
    }
  }
}
