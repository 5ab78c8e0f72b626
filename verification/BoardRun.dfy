/** One configuration built and described: aislab_machine_init followed by finalize_fdt. */
module BoardRun {
  import opened Board
  import Vpipc
  import opened AddressSpace
  import opened DeviceTree
  import opened FdtBuilder
  import opened MachineInit
  import opened MachineTheorems
  import opened TreeMatchesMachine

  /** The region that node n describes for d is where one of these devices is. */
  predicate Backed(devices: seq<Device>, n: Node, d: Dev) {
    Region(n, d).Some? ==>
      exists i :: 0 <= i < |devices| && devices[i].dev == d && devices[i].at.base == Region(n, d).value.base
                  && devices[i].at.size <= Region(n, d).value.size
  }

  lemma TreeBacked(c: Config, n: Node, d: Dev)
    requires Accepted(c) && n in Tree(c)
    ensures Backed(AllMade(c, Parts(c)), n, d)
  {
    if Region(n, d).Some? {
      DescribedIsRealised(c, n, d);
      var i :| 0 <= i < |Parts(c)| && Parts(c)[i] == d;
      assert AllMade(c, Parts(c))[i].dev == d;
    }
  }

  /** Some node describes the device. */
  predicate HasNode(nodes: seq<Node>, d: Dev) {
    exists n :: n in nodes && Region(n, d).Some?
  }

  /** The APLICs above socket 0 under KVM's in-kernel AIA, which have no nodes. */
  predicate LeftOut(c: Config, d: Dev) {
    KvmAia(c) && d.AplicS? && d.socket > 0
  }

  /** Whatever the finished device tree describes is a device of the built machine, at the described base and
      inside the described span; every listed device of the machine is described, but for the APLICs above socket
      0 under KVM's in-kernel AIA; and if RAM fits no two devices overlap. */
  method BuildAndDescribe(c: Config, ids: seq<HartIds>) returns (r: Outcome, machine: Machine, fdt: Fdt)
    requires Admitted(c) && Describes(ids, c)
    ensures r == Built <==> Accepted(c) && AllKnown(ids, |ids|)
    ensures r == Built ==> forall n, d :: n in fdt.nodes ==> Backed(machine.devices, n, d)
    ensures r == Built
            ==> forall i :: 0 <= i < |machine.devices| && Listed(machine.devices[i].dev)
                            ==> (HasNode(fdt.nodes, machine.devices[i].dev) <==> !LeftOut(c, machine.devices[i].dev))
    ensures r == Built && RamFits(c)
            ==> forall i, j :: 0 <= i < j < |machine.devices| ==> Apart(machine.devices[i].at, machine.devices[j].at)
  {
    machine := new Machine(c);
    fdt := new Fdt(c);
    var done;
    r, done := machine.Init(ids);
    if r == Built {
      fdt.Finalize();
      AllBacked(c);
      AllShown(c);
      AllRealisedApart(c);
    }
  }

  lemma AllBacked(c: Config)
    requires Accepted(c)
    ensures forall n, d :: n in Tree(c) ==> Backed(AllMade(c, Parts(c)), n, d)
  {
    forall n, d | n in Tree(c)
      ensures Backed(AllMade(c, Parts(c)), n, d)
    {
      TreeBacked(c, n, d);
    }
  }

  lemma AllShown(c: Config)
    requires Accepted(c)
    ensures forall i :: 0 <= i < |AllMade(c, Parts(c))| && Listed(AllMade(c, Parts(c))[i].dev)
                        ==> (HasNode(Tree(c), AllMade(c, Parts(c))[i].dev)
                             <==> !LeftOut(c, AllMade(c, Parts(c))[i].dev))
  {
    forall i | 0 <= i < |Parts(c)| && Listed(Parts(c)[i])
      ensures HasNode(Tree(c), Parts(c)[i]) <==> !LeftOut(c, Parts(c)[i])
    {
      RealisedIsDescribedIff(c, Parts(c)[i]);
    }
  }

  lemma AllRealisedApart(c: Config)
    requires Accepted(c)
    ensures RamFits(c)
            ==> forall i, j :: 0 <= i < j < |AllMade(c, Parts(c))|
                               ==> Apart(AllMade(c, Parts(c))[i].at, AllMade(c, Parts(c))[j].at)
  {
    if RamFits(c) {
      forall i, j | 0 <= i < j < |Parts(c)|
        ensures Apart(AllMade(c, Parts(c))[i].at, AllMade(c, Parts(c))[j].at)
      {
        RealisedApart(c, i, j);
      }
    }
  }

  /** The window the board maps and describes for the MMIO bus is the one the link forwards: a guest access at any
      address in it reaches the client with that address. */
  lemma GuestAddressForwarded(c: Config, a: nat, op: Vpipc.Access)
    requires WindowOf(c, MmioBus).base <= a < WindowOf(c, MmioBus).base + WindowOf(c, MmioBus).size
    requires op.offset == a - WindowOf(c, MmioBus).base && (op.size == 1 || op.size == 2 || op.size == 4)
    ensures Vpipc.ValidAccess(op) && Vpipc.Request(op).addr == a && Vpipc.Request(op).word == op.size
    ensures Vpipc.Request(op).typ == if op.isWrite then 0 else 1
  {
  }
}
