/** Accepted configurations for which the board does not do what its device tree or its memory map says. */
module FailingCases {
  import opened Options
  import opened Board
  import opened AddressSpace
  import opened DeviceTree
  import opened TreeWalk
  import opened TreeProperties
  import opened MachineInit
  import opened MachineTheorems
  import opened TreeMatchesMachine

  /** Two sockets of two harts with KVM's in-kernel AIA. */
  const TWO_KVM_SOCKETS := Config([Soc(0, 2), Soc(2, 2)], AplicImsic, 3, false, Kvm, true, false, 0x4000_0000)

  /** One 32-bit hart and 12 GiB of RAM. */
  const BIG_RAM_32 := Config([Soc(0, 1)], NoAia, 0, false, Tcg, false, true, 12 * GIB)

  /** One 64-bit hart, and RAM whose end is exactly 2^64. Only a host that can back a region of nearly 2^64 bytes
      gets as far as this: the case is one of the arithmetic. */
  const FULL_RAM := Config([Soc(0, 1)], NoAia, 0, false, Tcg, false, false, 0xFFFF_FFFF_8000_0000)

  lemma TwoKvmSocketsAccepted()
    ensures Accepted(TWO_KVM_SOCKETS) && KvmAia(TWO_KVM_SOCKETS)
  {
    var socs := TWO_KVM_SOCKETS.socs;
    assert socs[..1] == [Soc(0, 2)];
    assert [Soc(0, 2)][..0] == [];
    assert Harts([Soc(0, 2)]) == 2;
    assert Harts(socs) == 4;
  }

  /** With several sockets and KVM's in-kernel AIA, socket 1's APLIC is realised and not described. */
  lemma AplicUndescribed(c: Config)
    requires Accepted(c) && KvmAia(c) && |c.socs| > 1
    ensures AplicS(1) in Parts(c) && forall n :: n in Tree(c) ==> Region(n, AplicS(1)) == None
  {
    PartsExact(c, AplicS(1));
    RealisedIsDescribedIff(c, AplicS(1));
  }

  /** The first virtio device is wired to socket 1's APLIC, and the tree sends its interrupt elsewhere. */
  lemma VirtioMisrouted(c: Config) returns (w: Wire, n: Node, parent: Node)
    requires Accepted(c) && KvmAia(c) && |c.socs| > 1
    ensures w in Wires(c) && w.dev == Virtio(0) && n in Tree(c) && n.Wired? && n.dev == w.dev
    ensures Resolve(Tree(c), n.parent) == Some(parent) && !Feeds(c, w.chip, parent)
  {
    w := VirtioWires(ChipOf(c, WiredVirtio(c)))[0];
    assert w in VirtioWires(ChipOf(c, WiredVirtio(c)));
    n, parent := WireAgreesIff(c, w);
  }

  /** The concrete board shows all of it: an APLIC without a node, a misrouted interrupt, missing phandles. */
  lemma TwoKvmSocketsDisagree() returns (w: Wire, n: Node, parent: Node)
    ensures var c := TWO_KVM_SOCKETS;
            && Accepted(c)
            && AplicS(1) in Parts(c) && (forall m :: m in Tree(c) ==> Region(m, AplicS(1)) == None)
            && w in Wires(c) && w.dev == Virtio(0) && n in Tree(c) && n.Wired? && n.dev == w.dev
            && Resolve(Tree(c), n.parent) == Some(parent) && !Feeds(c, w.chip, parent)
            && !Consecutive(Phandles(Tree(c)), 1, LastPhandle(c) + 1)
  {
    TwoKvmSocketsAccepted();
    AplicUndescribed(TWO_KVM_SOCKETS);
    w, n, parent := VirtioMisrouted(TWO_KVM_SOCKETS);
    PhandlesExactIff(TWO_KVM_SOCKETS);
  }

  lemma FullRamAccepted()
    ensures Accepted(FULL_RAM)
  {
    assert [Soc(0, 1)][..0] == [];
    assert Harts([Soc(0, 1)]) == 1;
  }

  /** The end of RAM wraps, the high PCIe window starts at 0, and covers the boot ROM and the test device. */
  lemma FullRamWraps()
    ensures Accepted(FULL_RAM) && Present(FULL_RAM, HighPcie) && Present(FULL_RAM, Mrom)
    ensures HighPcieWindow(FULL_RAM) == Window(0, HIGH_PCIE_64_SIZE)
    ensures !Apart(WindowOf(FULL_RAM, HighPcie), WindowOf(FULL_RAM, Mrom))
    ensures !Apart(WindowOf(FULL_RAM, HighPcie), WindowOf(FULL_RAM, Test))
  {
    FullRamAccepted();
  }

  lemma BigRam32Accepted()
    ensures Accepted(BIG_RAM_32)
  {
    assert [Soc(0, 1)][..0] == [];
    assert Harts([Soc(0, 1)]) == 1;
  }

  /** The size on record is cut to 10 GiB, the region mapped is not, and runs into the high PCIe window. */
  lemma BigRam32Overlaps()
    ensures Accepted(BIG_RAM_32) && Present(BIG_RAM_32, HighPcie) && Present(BIG_RAM_32, Ram)
    ensures RamSize(BIG_RAM_32) == 10 * GIB && WindowOf(BIG_RAM_32, Ram).size == 12 * GIB
    ensures !Apart(WindowOf(BIG_RAM_32, HighPcie), WindowOf(BIG_RAM_32, Ram))
  {
    BigRam32Accepted();
  }
}
