/** Properties of the finished device tree: phandles without repeats or gaps, references that resolve, and
    interrupt arrays that name every hart once whatever the split into sockets. */
module TreeProperties {
  import opened Options
  import opened Board
  import opened DeviceTree
  import opened TreeWalk

  // ---------- phandles in creation order ----------

  lemma HartPhandles(c: Config, k: nat, i: nat)
    requires k < |c.socs| && i < c.socs[k].numHarts
    ensures 0 <= CounterAt(c, Pos(c, k) + i + 1)
    ensures Consecutive(Phandles(HartNodes(c, k, i)), CounterAt(c, Pos(c, k) + i + 1), CounterAt(c, Pos(c, k) + i))
  {
    SliceInside(c, k);
    var ns := HartNodes(c, k, i);
    var g := Pos(c, k) + i;
    PhandlesTwo(ns[0], ns[1], CpuPhandle(c, g), IntcPhandle(c, g));
    PhandlesNone([ns[2]]);
    PhandlesAppend([ns[0], ns[1]], [ns[2]]);
    assert ns == [ns[0], ns[1]] + [ns[2]];
  }

  lemma {:induction false} CpusPhandles(c: Config, k: nat, i: nat)
    requires k < |c.socs| && i <= c.socs[k].numHarts
    ensures 0 <= CounterAt(c, Pos(c, k) + c.socs[k].numHarts) <= CounterAt(c, Pos(c, k) + i)
    ensures Consecutive(Phandles(CpusFrom(c, k, i)), CounterAt(c, Pos(c, k) + c.socs[k].numHarts),
                        CounterAt(c, Pos(c, k) + i))
    decreases c.socs[k].numHarts - i
  {
    SliceInside(c, k);
    if i == c.socs[k].numHarts {
    } else {
      CpusPhandles(c, k, i + 1);
      HartPhandles(c, k, i);
      PhandlesAppend(CpusFrom(c, k, i + 1), HartNodes(c, k, i));
      ConsecutiveJoin(Phandles(CpusFrom(c, k, i + 1)), Phandles(HartNodes(c, k, i)),
                      CounterAt(c, Pos(c, k) + c.socs[k].numHarts), CounterAt(c, Pos(c, k) + i + 1),
                      CounterAt(c, Pos(c, k) + i));
    }
  }

  lemma SocketPhandles(c: Config, k: nat)
    requires k < |c.socs|
    ensures Phandles(SocketNodes(c, k)) == Phandles(CpusFrom(c, k, 0))
  {
    PhandlesNone([Cluster(k)]);
    PhandlesNone([Memory(k)]);
    PhandlesNone(TimerNodes(c, k));
    PhandlesJoin4([Cluster(k)], CpusFrom(c, k, 0), [Memory(k)], TimerNodes(c, k));
  }

  lemma {:induction false} SocketsPhandles(c: Config, k: nat)
    requires k <= |c.socs|
    ensures 1 <= CounterAt(c, Pos(c, k))
    ensures Consecutive(Phandles(SocketsFrom(c, k)), 1, CounterAt(c, Pos(c, k)))
    decreases |c.socs| - k
  {
    PosEnds(c);
    if k == |c.socs| {
    } else {
      PosStep(c, k);
      SocketsPhandles(c, k + 1);
      SocketPhandles(c, k);
      CpusPhandles(c, k, 0);
      PhandlesAppend(SocketsFrom(c, k + 1), SocketNodes(c, k));
      ConsecutiveJoin(Phandles(SocketsFrom(c, k + 1)), Phandles(SocketNodes(c, k)), 1,
                      CounterAt(c, Pos(c, k + 1)), CounterAt(c, Pos(c, k)));
    }
  }

  /** Phandles a controller takes up, and how many of them appear on nodes. */
  function Shown(c: Config): nat {
    if c.aia == NoAia || c.accel == Kvm then 1 else 2
  }

  lemma ImsicPhandles(c: Config)
    ensures Climbs(Phandles(ImsicNodes(c)), 2 * Cpus(c) + 1, BeforeXplics(c) + 1)
    ensures |Phandles(ImsicNodes(c))| == if c.aia == AplicImsic then Shown(c) else 0
  {
    var lo, m, s := 2 * Cpus(c) + 1, ImsicPhandle(c, true), ImsicPhandle(c, false);
    if c.aia == AplicImsic {
      if c.accel == Kvm {
        ClimbsSingle(OneImsic(c, false), s, lo, s + 1);
        assert ImsicNodes(c) == [OneImsic(c, false)];
      } else {
        ClimbsPair(OneImsic(c, true), OneImsic(c, false), m, s, lo, s + 1);
        assert ImsicNodes(c) == [OneImsic(c, true), OneImsic(c, false)];
      }
    }
  }

  /** The controller node socket k's device interrupts go to. */
  function XplicNode(c: Config, k: nat): Node
    requires k < |c.socs| && k < XplicSockets(c)
  {
    if c.aia == NoAia then OnePlic(c, k) else OneAplic(c, false, k)
  }

  lemma SingleXplic(c: Config, k: nat)
    requires k < |c.socs| && k < XplicSockets(c) && (c.aia == NoAia || c.accel == Kvm)
    ensures XplicNodes(c, k) == [XplicNode(c, k)] && PhandleOf(XplicNode(c, k)) == Some(XplicPhandle(c, k))
  {
  }

  lemma PairOfAplics(c: Config, k: nat)
    requires k < |c.socs| && k < XplicSockets(c) && c.aia != NoAia && c.accel != Kvm
    ensures XplicNodes(c, k) == [OneAplic(c, true, k), OneAplic(c, false, k)]
  {
  }

  lemma SinglePhandle(c: Config, k: nat)
    requires k < |c.socs| && k < XplicSockets(c) && (c.aia == NoAia || c.accel == Kvm)
    ensures Climbs(Phandles(XplicNodes(c, k)), AfterXplics(c, k + 1), AfterXplics(c, k))
    ensures |Phandles(XplicNodes(c, k))| == 1
  {
    SingleXplic(c, k);
    ClimbsSingle(XplicNode(c, k), XplicPhandle(c, k), AfterXplics(c, k + 1), AfterXplics(c, k));
  }

  lemma PairPhandles(c: Config, k: nat)
    requires k < |c.socs| && k < XplicSockets(c) && c.aia != NoAia && c.accel != Kvm
    ensures Climbs(Phandles(XplicNodes(c, k)), AfterXplics(c, k + 1), AfterXplics(c, k))
    ensures |Phandles(XplicNodes(c, k))| == 2
  {
    PairOfAplics(c, k);
    ClimbsPair(OneAplic(c, true, k), OneAplic(c, false, k), AplicPhandle(c, true, k), AplicPhandle(c, false, k),
               AfterXplics(c, k + 1), AfterXplics(c, k));
  }

  lemma XplicPhandles(c: Config, k: nat)
    requires k < |c.socs| && k < XplicSockets(c)
    ensures Climbs(Phandles(XplicNodes(c, k)), AfterXplics(c, k + 1), AfterXplics(c, k))
    ensures |Phandles(XplicNodes(c, k))| == Shown(c)
  {
    if Shown(c) == 1 { SinglePhandle(c, k); } else { PairPhandles(c, k); }
  }

  function ShownFrom(c: Config, k: nat): nat
    requires k <= XplicSockets(c)
  {
    if Shown(c) == 1 then XplicSockets(c) - k else 2 * (XplicSockets(c) - k)
  }

  lemma XplicsStep(c: Config, k: nat)
    requires 1 <= |c.socs| && k < XplicSockets(c)
    requires Climbs(Phandles(XplicsFrom(c, k + 1)), BeforeXplics(c) + 1, AfterXplics(c, k + 1))
    ensures Climbs(Phandles(XplicsFrom(c, k)), BeforeXplics(c) + 1, AfterXplics(c, k))
    ensures |Phandles(XplicsFrom(c, k))| == |Phandles(XplicsFrom(c, k + 1))| + Shown(c)
  {
    var a, b := XplicsFrom(c, k + 1), XplicNodes(c, k);
    XplicPhandles(c, k);
    ClimbsGrow(a, b, BeforeXplics(c) + 1, AfterXplics(c, k + 1), AfterXplics(c, k));
    assert XplicsFrom(c, k) == a + b;
  }

  lemma {:induction false} XplicsPhandles(c: Config, k: nat)
    requires 1 <= |c.socs| && k <= XplicSockets(c)
    ensures Climbs(Phandles(XplicsFrom(c, k)), BeforeXplics(c) + 1, AfterXplics(c, k))
    ensures |Phandles(XplicsFrom(c, k))| == ShownFrom(c, k)
    decreases XplicSockets(c) - k
  {
    if k == XplicSockets(c) {
      assert XplicsFrom(c, k) == [];
    } else {
      XplicsPhandles(c, k + 1);
      XplicsStep(c, k);
    }
  }

  lemma DevicePhandles(c: Config)
    requires 1 <= |c.socs|
    ensures Phandles(DeviceNodes(c)) == [LastPhandle(c)]
  {
    var r := ResetNodes(c);
    PhandlesNone(VirtioNodes(c));
    PhandlesNone([PcieNode(c)]);
    PhandlesNone(WiredNodes(c));
    PhandlesOne(r[0], LastPhandle(c));
    PhandlesNone([r[1], r[2]]);
    PhandlesAppend([r[0]], [r[1], r[2]]);
    assert r == [r[0]] + [r[1], r[2]];
    PhandlesJoin4(VirtioNodes(c), [PcieNode(c)], r, WiredNodes(c));
  }

  lemma CountsAddUp(c: Config)
    ensures 2 * Cpus(c) + (if c.aia == AplicImsic then Shown(c) else 0) + ShownFrom(c, 0) + 1 + Hidden(c)
            == LastPhandle(c)
  {
  }

  lemma ControllerPhandles(c: Config)
    requires 1 <= |c.socs|
    ensures Climbs(Phandles(ControllerNodes(c)), 1, LastPhandle(c))
    ensures |Phandles(ControllerNodes(c))|
            == 2 * Cpus(c) + (if c.aia == AplicImsic then Shown(c) else 0) + ShownFrom(c, 0)
  {
    var early, x := SocketsFrom(c, 0) + ImsicNodes(c), XplicsFrom(c, 0);
    EarlyPhandles(c);
    XplicsPhandles(c, 0);
    ClimbsGrow(early, x, 1, BeforeXplics(c) + 1, AfterXplics(c, 0));
    assert ControllerNodes(c) == early + x;
  }

  lemma EarlyPhandles(c: Config)
    ensures Climbs(Phandles(SocketsFrom(c, 0) + ImsicNodes(c)), 1, BeforeXplics(c) + 1)
    ensures |Phandles(SocketsFrom(c, 0) + ImsicNodes(c))|
            == 2 * Cpus(c) + if c.aia == AplicImsic then Shown(c) else 0
  {
    HartsPhandles(c);
    ImsicPhandles(c);
    ClimbsGrow(SocketsFrom(c, 0), ImsicNodes(c), 1, 2 * Cpus(c) + 1, BeforeXplics(c) + 1);
  }

  lemma HartsPhandles(c: Config)
    ensures Climbs(Phandles(SocketsFrom(c, 0)), 1, 2 * Cpus(c) + 1)
    ensures |Phandles(SocketsFrom(c, 0))| == 2 * Cpus(c)
  {
    PosEnds(c);
    SocketsPhandles(c, 0);
    ConsecutiveClimbs(Phandles(SocketsFrom(c, 0)), 1, 2 * Cpus(c) + 1);
  }

  /** Phandles issued but put on no node: the machine-level controllers under KVM. */
  function Hidden(c: Config): nat {
    if c.accel != Kvm || c.aia == NoAia then 0
    else XplicSockets(c) + if c.aia == AplicImsic then 1 else 0
  }

  /** Along the tree in creation order phandles strictly ascend from 1 to the closed-form last one, so
      none repeats; as many are missing as are issued to nodes the configuration leaves out. */
  lemma PhandlesAscend(c: Config)
    requires 1 <= |c.socs|
    ensures Ascending(Phandles(Tree(c)), 1, LastPhandle(c) + 1)
    ensures |Phandles(Tree(c))| + Hidden(c) == LastPhandle(c)
  {
    ControllerPhandles(c);
    CountsAddUp(c);
    DevicePhandles(c);
    ClimbsOne(LastPhandle(c), LastPhandle(c), LastPhandle(c) + 1);
    ClimbsGrow(ControllerNodes(c), DeviceNodes(c), 1, LastPhandle(c), LastPhandle(c) + 1);
    ClimbsIsAscending(Phandles(Tree(c)), 1, LastPhandle(c) + 1);
  }

  /** The tree's phandles are exactly 1, 2, ..., LastPhandle, each once and in order, unless KVM hides the
      machine-level AIA nodes. */
  lemma PhandlesExactIff(c: Config)
    requires 1 <= |c.socs|
    ensures !(c.accel == Kvm && c.aia != NoAia) <==> Consecutive(Phandles(Tree(c)), 1, LastPhandle(c) + 1)
  {
    PhandlesAscend(c);
    if Hidden(c) == 0 {
      AscendingFull(Phandles(Tree(c)), 1, LastPhandle(c) + 1);
    }
  }

  // ---------- following a phandle ----------

  /** Any node of the tree that has a phandle is what that phandle refers to. */
  lemma ResolvesTo(c: Config, n: Node, p: nat)
    requires 1 <= |c.socs| && n in Tree(c) && PhandleOf(n) == Some(p)
    ensures Resolve(Tree(c), p) == Some(n)
  {
    PhandlesAscend(c);
    ResolveUnique(Tree(c), n, LastPhandle(c) + 1);
  }

  lemma {:induction false} HartInCpus(c: Config, k: nat, j: nat, i: nat, n: Node)
    requires k < |c.socs| && j <= i < c.socs[k].numHarts && n in HartNodes(c, k, i)
    ensures n in CpusFrom(c, k, j)
    decreases i - j
  {
    InEither(CpusFrom(c, k, j + 1), HartNodes(c, k, j), n);
    if j == i {
    } else {
      HartInCpus(c, k, j + 1, i, n);
    }
  }

  function SocketLists(c: Config): (lists: seq<seq<Node>>)
    ensures |lists| == |c.socs|
  {
    seq(|c.socs|, k requires 0 <= k < |c.socs| => SocketNodes(c, k))
  }

  lemma {:induction false} SocketsAreFlat(c: Config, j: nat)
    requires j <= |c.socs|
    ensures SocketsFrom(c, j) == FlatDown(SocketLists(c), j)
    decreases |c.socs| - j
  {
    if j == |c.socs| {
    } else {
      SocketsAreFlat(c, j + 1);
    }
  }

  lemma SocketInTree(c: Config, k: nat, n: Node)
    requires k < |c.socs| && n in SocketNodes(c, k)
    ensures n in Tree(c)
  {
    SocketsAreFlat(c, 0);
    InFlatDown(SocketLists(c), k, 0, n);
    InEither(SocketsFrom(c, 0), ImsicNodes(c), n);
  }

  lemma HartInSocket(c: Config, k: nat, i: nat, n: Node)
    requires k < |c.socs| && i < c.socs[k].numHarts && n in HartNodes(c, k, i)
    ensures n in SocketNodes(c, k)
  {
    HartInCpus(c, k, 0, i, n);
    InEither([Cluster(k)], CpusFrom(c, k, 0), n);
  }

  lemma HartInTree(c: Config, k: nat, i: nat, n: Node)
    requires k < |c.socs| && i < c.socs[k].numHarts && n in HartNodes(c, k, i)
    ensures n in Tree(c)
  {
    HartInSocket(c, k, i, n);
    SocketInTree(c, k, n);
  }

  lemma HartResolves(c: Config, k: nat, i: nat, n: Node, p: nat)
    requires k < |c.socs| && i < c.socs[k].numHarts && n in HartNodes(c, k, i) && PhandleOf(n) == Some(p)
    ensures Resolve(Tree(c), p) == Some(n)
  {
    HartInTree(c, k, i, n);
    ResolvesTo(c, n, p);
  }

  lemma CpuOfHart(c: Config, k: nat, i: nat, hart: nat, p: nat)
    requires k < |c.socs| && i < c.socs[k].numHarts && hart == c.socs[k].hartBase + i
    requires p == 2 * (Cpus(c) - (Pos(c, k) + i)) - 1
    ensures p >= 0 && Cpu(hart, k, p) in HartNodes(c, k, i)
  {
    SliceInside(c, k);
    assert HartNodes(c, k, i)[0] == Cpu(hart, k, p);
  }

  lemma IntcOfHart(c: Config, k: nat, i: nat, hart: nat, p: nat)
    requires k < |c.socs| && i < c.socs[k].numHarts && hart == c.socs[k].hartBase + i
    requires p == 2 * (Cpus(c) - (Pos(c, k) + i))
    ensures CpuIntc(hart, p) in HartNodes(c, k, i)
  {
    SliceInside(c, k);
    assert HartNodes(c, k, i)[1] == CpuIntc(hart, p);
  }

  lemma CpuAt(c: Config, k: nat, i: nat, hart: nat, p: nat)
    requires k < |c.socs| && i < c.socs[k].numHarts && hart == c.socs[k].hartBase + i
    requires p == 2 * (Cpus(c) - (Pos(c, k) + i)) - 1
    ensures Resolve(Tree(c), p) == Some(Cpu(hart, k, p))
  {
    CpuOfHart(c, k, i, hart, p);
    HartResolves(c, k, i, Cpu(hart, k, p), p);
  }

  lemma IntcAt(c: Config, k: nat, i: nat, hart: nat, p: nat)
    requires k < |c.socs| && i < c.socs[k].numHarts && hart == c.socs[k].hartBase + i
    requires p == 2 * (Cpus(c) - (Pos(c, k) + i))
    ensures Resolve(Tree(c), p) == Some(CpuIntc(hart, p))
  {
    IntcOfHart(c, k, i, hart, p);
    HartResolves(c, k, i, CpuIntc(hart, p), p);
  }

  /** Global position g, in whatever socket the split puts it, has cpu phandle 2(C - g) - 1 and interrupt
      controller phandle 2(C - g), and both lead to the nodes of that hart. */
  lemma PartitionIndependent(c: Config, g: nat) returns (k: nat, hart: nat)
    requires g < Cpus(c)
    ensures k < |c.socs| && Pos(c, k) <= g < Pos(c, k) + c.socs[k].numHarts
    ensures hart == c.socs[k].hartBase + (g - Pos(c, k))
    ensures Resolve(Tree(c), 2 * (Cpus(c) - g) - 1) == Some(Cpu(hart, k, 2 * (Cpus(c) - g) - 1))
    ensures Resolve(Tree(c), 2 * (Cpus(c) - g)) == Some(CpuIntc(hart, 2 * (Cpus(c) - g)))
  {
    k := SocketOf(c, g);
    hart := c.socs[k].hartBase + (g - Pos(c, k));
    CpuAt(c, k, g - Pos(c, k), hart, 2 * (Cpus(c) - g) - 1);
    IntcAt(c, k, g - Pos(c, k), hart, 2 * (Cpus(c) - g));
  }

  // ---------- references between nodes ----------

  lemma CoreInTree(c: Config, k: nat, i: nat)
    requires k < |c.socs| && i < c.socs[k].numHarts
    ensures Pos(c, k) + i < Cpus(c) && Core(k, i, CpuPhandle(c, Pos(c, k) + i)) in Tree(c)
  {
    SliceInside(c, k);
    HartInTree(c, k, i, Core(k, i, CpuPhandle(c, Pos(c, k) + i)));
  }

  /** A core's reference leads to its cpu node. */
  lemma CoresResolve(c: Config, k: nat, i: nat)
    requires k < |c.socs| && i < c.socs[k].numHarts
    ensures Pos(c, k) + i < Cpus(c)
    ensures var cpu := CpuPhandle(c, Pos(c, k) + i);
            Core(k, i, cpu) in Tree(c) && Resolve(Tree(c), cpu) == Some(Cpu(c.socs[k].hartBase + i, k, cpu))
  {
    SliceInside(c, k);
    CoreInTree(c, k, i);
    CpuAt(c, k, i, c.socs[k].hartBase + i, CpuPhandle(c, Pos(c, k) + i));
  }

  function XplicLists(c: Config): (lists: seq<seq<Node>>)
    requires 1 <= |c.socs|
    ensures |lists| == XplicSockets(c)
  {
    seq(XplicSockets(c), k requires 0 <= k < XplicSockets(c) => XplicNodes(c, k))
  }

  lemma {:induction false} XplicsAreFlat(c: Config, j: nat)
    requires 1 <= |c.socs| && j <= XplicSockets(c)
    ensures XplicsFrom(c, j) == FlatDown(XplicLists(c), j)
    decreases XplicSockets(c) - j
  {
    if j == XplicSockets(c) {
    } else {
      XplicsAreFlat(c, j + 1);
    }
  }

  lemma XplicInTree(c: Config, k: nat, n: Node)
    requires 1 <= |c.socs| && k < XplicSockets(c) && n in XplicNodes(c, k)
    ensures n in Tree(c)
  {
    XplicsAreFlat(c, 0);
    InFlatDown(XplicLists(c), k, 0, n);
    InEither(SocketsFrom(c, 0) + ImsicNodes(c), XplicsFrom(c, 0), n);
  }

  lemma XplicResolves(c: Config, k: nat, n: Node, p: nat)
    requires 1 <= |c.socs| && k < XplicSockets(c) && n in XplicNodes(c, k) && PhandleOf(n) == Some(p)
    ensures Resolve(Tree(c), p) == Some(n)
  {
    XplicInTree(c, k, n);
    ResolvesTo(c, n, p);
  }

  lemma ImsicResolves(c: Config, mMode: bool)
    requires 1 <= |c.socs| && c.aia == AplicImsic && (mMode ==> c.accel != Kvm)
    ensures OneImsic(c, mMode) in Tree(c)
    ensures Resolve(Tree(c), ImsicPhandle(c, mMode)) == Some(OneImsic(c, mMode))
  {
    assert OneImsic(c, mMode) in ImsicNodes(c);
    ResolvesTo(c, OneImsic(c, mMode), ImsicPhandle(c, mMode));
  }

  lemma AplicInNodes(c: Config, mMode: bool, k: nat)
    requires k < |c.socs| && k < XplicSockets(c) && c.aia != NoAia && (mMode ==> c.accel != Kvm)
    ensures OneAplic(c, mMode, k) in XplicNodes(c, k)
  {
    if c.accel == Kvm { SingleXplic(c, k); } else { PairOfAplics(c, k); }
  }

  /** A machine-level APLIC delegates to the supervisor-level one of its socket. */
  lemma AplicChildResolves(c: Config, k: nat)
    requires 1 <= |c.socs| && k < XplicSockets(c) && c.aia != NoAia && c.accel != Kvm
    ensures OneAplic(c, true, k) in Tree(c) && OneAplic(c, true, k).child == Some(AplicPhandle(c, false, k))
    ensures Resolve(Tree(c), AplicPhandle(c, false, k)) == Some(OneAplic(c, false, k))
  {
    AplicInNodes(c, true, k);
    AplicInNodes(c, false, k);
    XplicInTree(c, k, OneAplic(c, true, k));
    XplicResolves(c, k, OneAplic(c, false, k), AplicPhandle(c, false, k));
  }

  /** In message mode an APLIC's msi-parent is the IMSIC of its own privilege level. */
  lemma AplicParentResolves(c: Config, mMode: bool, k: nat)
    requires 1 <= |c.socs| && k < XplicSockets(c) && c.aia != NoAia && (mMode ==> c.accel != Kvm)
    ensures OneAplic(c, mMode, k) in Tree(c)
    ensures OneAplic(c, mMode, k).msiParent == if c.aia == AplicImsic then Some(ImsicPhandle(c, mMode)) else None
    ensures c.aia == AplicImsic ==> Resolve(Tree(c), ImsicPhandle(c, mMode)) == Some(OneImsic(c, mMode))
  {
    AplicInNodes(c, mMode, k);
    XplicInTree(c, k, OneAplic(c, mMode, k));
    if c.aia == AplicImsic { ImsicResolves(c, mMode); }
  }

  /** PCIe sends its messages to the supervisor-level IMSIC. */
  lemma PcieResolves(c: Config)
    requires 1 <= |c.socs|
    ensures PcieNode(c) in Tree(c)
    ensures PcieNode(c).msiParent.Some? <==> c.aia == AplicImsic
    ensures c.aia == AplicImsic ==> Resolve(Tree(c), PcieNode(c).msiParent.value) == Some(OneImsic(c, false))
  {
    assert PcieNode(c) in DeviceNodes(c);
    if c.aia == AplicImsic { ImsicResolves(c, false); }
  }

  /** Reboot and poweroff go through the test device. */
  lemma ResetResolves(c: Config, reboot: bool)
    requires 1 <= |c.socs|
    ensures Syscon(reboot, LastPhandle(c)) in Tree(c)
    ensures Resolve(Tree(c), LastPhandle(c)) == Some(TestNode([TEST], LastPhandle(c)))
  {
    var test := TestNode([TEST], LastPhandle(c));
    assert test in ResetNodes(c) && Syscon(reboot, LastPhandle(c)) in ResetNodes(c);
    assert test in DeviceNodes(c) && Syscon(reboot, LastPhandle(c)) in DeviceNodes(c);
    ResolvesTo(c, test, LastPhandle(c));
  }

  lemma ParentsResolve(c: Config, k: nat)
    requires 1 <= |c.socs| && k < XplicSockets(c)
    ensures Resolve(Tree(c), XplicPhandle(c, k)) == Some(XplicNode(c, k))
  {
    XplicResolves(c, k, XplicNode(c, k), XplicPhandle(c, k));
  }

  // ---------- interrupt arrays over all sockets ----------

  /** Which interrupt lines a kind of node lists for each hart; none if the configuration has no such node. */
  function IrqsOf(c: Config, w: Which): (irqs: seq<nat>)
    ensures |irqs| <= 2
  {
    match w
    case OfTimer(Clint) => if !c.aclint && c.accel == Tcg then [IRQ_M_SOFT, IRQ_M_TIMER] else []
    case OfTimer(Mswi) => if c.aclint && c.aia != AplicImsic then [IRQ_M_SOFT] else []
    case OfTimer(MtimerTimer) => if c.aclint then [IRQ_M_TIMER] else []
    case OfTimer(SswiTimer) => if c.aclint && c.aia != AplicImsic then [IRQ_S_SOFT] else []
    case OfPlic => if c.aia != NoAia then [] else if c.accel == Kvm then [IRQ_S_EXT] else [IRQ_M_EXT, IRQ_S_EXT]
    case OfAplic(m) => if c.aia == Aplic && !(m && c.accel == Kvm) then [ExtIrq(m)] else []
    case OfImsic(m) => if c.aia == AplicImsic && !(m && c.accel == Kvm) then [ExtIrq(m)] else []
  }

  /** Interrupt causes of the privileged architecture: software, timer and external interrupts are classes 0, 1
      and 2, supervisor and machine level are 1 and 3. */
  function Cause(class_: nat, machine: bool): nat {
    4 * class_ + if machine then 3 else 1
  }

  /** Each kind of controller lists the causes it raises, at its own level. */
  lemma CausesOf(c: Config, w: Which)
    requires IrqsOf(c, w) != []
    ensures IrqsOf(c, w) == match w
                            case OfTimer(Clint) => [Cause(0, true), Cause(1, true)]
                            case OfTimer(Mswi) => [Cause(0, true)]
                            case OfTimer(MtimerTimer) => [Cause(1, true)]
                            case OfTimer(SswiTimer) => [Cause(0, false)]
                            case OfPlic =>
                              if c.accel == Kvm then [Cause(2, false)] else [Cause(2, true), Cause(2, false)]
                            case OfAplic(m) => [Cause(2, m)]
                            case OfImsic(m) => [Cause(2, m)]
  {
  }

  lemma {:induction false} CpusGather(c: Config, k: nat, i: nat, w: Which)
    requires k < |c.socs| && i <= c.socs[k].numHarts
    ensures Gather(CpusFrom(c, k, i), w) == []
    decreases c.socs[k].numHarts - i
  {
    if i == c.socs[k].numHarts {
    } else {
      CpusGather(c, k, i + 1, w);
      GatherNone(HartNodes(c, k, i), w);
      GatherAppend(CpusFrom(c, k, i + 1), HartNodes(c, k, i), w);
    }
  }

  lemma OneTimerGather(c: Config, k: nat, w: Which)
    requires Accepted(c) && k < |c.socs| && c.aclint && c.aia == AplicImsic
    ensures Gather(TimerNodes(c, k), w) == if w.OfTimer? then Lines(SocketIntcs(c, k), IrqsOf(c, w)) else []
  {
    LinesNone(SocketIntcs(c, k));
    GatherOne(MtimerNode(c, k), w);
    assert TimerNodes(c, k) == [MtimerNode(c, k)];
  }

  lemma ThreeTimersGather(c: Config, k: nat, w: Which)
    requires Accepted(c) && k < |c.socs| && c.aclint && c.aia != AplicImsic
    ensures Gather(TimerNodes(c, k), w)
            == if w == OfTimer(Mswi) then MswiNode(c, k).interrupts
               else if w == OfTimer(MtimerTimer) then MtimerNode(c, k).interrupts
               else if w == OfTimer(SswiTimer) then SswiNode(c, k).interrupts else []
  {
    var m, t, s := MswiNode(c, k), MtimerNode(c, k), SswiNode(c, k);
    assert TimerNodes(c, k) == [m] + [t] + [s];
    GatherTimers(m, t, s, w);
  }

  lemma ClintGather(c: Config, k: nat, w: Which)
    requires Accepted(c) && k < |c.socs| && !c.aclint
    ensures Gather(TimerNodes(c, k), w)
            == if w.OfTimer? then Lines(SocketIntcs(c, k), IrqsOf(c, w)) else []
  {
    LinesNone(SocketIntcs(c, k));
    GatherOne(ClintNode(c, k), w);
  }

  lemma AclintGather(c: Config, k: nat, w: Which)
    requires Accepted(c) && k < |c.socs| && c.aclint && c.aia != AplicImsic
    ensures Gather(TimerNodes(c, k), w) == if w.OfTimer? then Lines(SocketIntcs(c, k), IrqsOf(c, w)) else []
  {
    ThreeTimersGather(c, k, w);
    TimerLines(c, k, w);
  }

  lemma TimerLines(c: Config, k: nat, w: Which)
    requires Accepted(c) && k < |c.socs| && c.aclint && c.aia != AplicImsic
    ensures (if w == OfTimer(Mswi) then MswiNode(c, k).interrupts
             else if w == OfTimer(MtimerTimer) then MtimerNode(c, k).interrupts
             else if w == OfTimer(SswiTimer) then SswiNode(c, k).interrupts else [])
            == if w.OfTimer? then Lines(SocketIntcs(c, k), IrqsOf(c, w)) else []
  {
    if w == OfTimer(Clint) {
      LinesNone(SocketIntcs(c, k));
    }
  }

  lemma TimersGather(c: Config, k: nat, w: Which)
    requires Accepted(c) && k < |c.socs|
    ensures Gather(TimerNodes(c, k), w) == if w.OfTimer? then Lines(SocketIntcs(c, k), IrqsOf(c, w)) else []
  {
    if !c.aclint {
      ClintGather(c, k, w);
    } else if c.aia == AplicImsic {
      OneTimerGather(c, k, w);
    } else {
      AclintGather(c, k, w);
    }
  }

  /** Socket k's slice and everything above it make the slice from socket k up. */
  lemma JoinSlice(c: Config, k: nat, irqs: seq<nat>)
    requires k < |c.socs| && Pos(c, k + 1) <= Cpus(c)
    ensures Pos(c, k) <= Cpus(c)
    ensures Lines(SocketIntcs(c, k), irqs) + Lines(Intcs(c, Pos(c, k + 1), Cpus(c) - Pos(c, k + 1)), irqs)
            == Lines(Intcs(c, Pos(c, k), Cpus(c) - Pos(c, k)), irqs)
  {
    PosStep(c, k);
    SliceInside(c, k);
    var rest := Cpus(c) - Pos(c, k + 1);
    IntcsJoin(c, Pos(c, k), c.socs[k].numHarts, rest);
    LinesAppend(SocketIntcs(c, k), Intcs(c, Pos(c, k + 1), rest), irqs);
  }

  lemma SocketGather(c: Config, k: nat, w: Which)
    requires Accepted(c) && k < |c.socs|
    ensures Gather(SocketNodes(c, k), w) == if w.OfTimer? then Lines(SocketIntcs(c, k), IrqsOf(c, w)) else []
  {
    TimersGather(c, k, w);
    CpusGather(c, k, 0, w);
    GatherNone([Cluster(k)], w);
    GatherNone([Memory(k)], w);
    GatherLast4([Cluster(k)], CpusFrom(c, k, 0), [Memory(k)], TimerNodes(c, k), w);
  }

  lemma {:induction false} SocketsGather(c: Config, k: nat, w: Which)
    requires Accepted(c) && k <= |c.socs|
    ensures Pos(c, k) <= Cpus(c)
    ensures Gather(SocketsFrom(c, k), w)
            == if w.OfTimer? then Lines(Intcs(c, Pos(c, k), Cpus(c) - Pos(c, k)), IrqsOf(c, w)) else []
    decreases |c.socs| - k
  {
    PosEnds(c);
    PosMonotone(c, k, |c.socs|);
    if k == |c.socs| {
    } else {
      SocketsGather(c, k + 1, w);
      SocketGather(c, k, w);
      GatherAppend(SocketsFrom(c, k + 1), SocketNodes(c, k), w);
      JoinSlice(c, k, IrqsOf(c, w));
    }
  }

  lemma ImsicGather(c: Config, w: Which)
    ensures Gather(ImsicNodes(c), w) == if w.OfImsic? then Lines(Intcs(c, 0, Cpus(c)), IrqsOf(c, w)) else []
  {
    LinesNone(Intcs(c, 0, Cpus(c)));
    if c.aia == AplicImsic {
      if c.accel == Kvm { KvmImsicGather(c, w); } else { ImsicPairGather(c, w); }
    }
  }

  lemma KvmImsicGather(c: Config, w: Which)
    requires c.aia == AplicImsic && c.accel == Kvm
    ensures Gather(ImsicNodes(c), w) == if w == OfImsic(false) then Lines(Intcs(c, 0, Cpus(c)), [IRQ_S_EXT]) else []
  {
    GatherOne(OneImsic(c, false), w);
    assert ImsicNodes(c) == [OneImsic(c, false)];
  }

  lemma ImsicPairGather(c: Config, w: Which)
    requires c.aia == AplicImsic && c.accel != Kvm
    ensures Gather(ImsicNodes(c), w)
            == if w.OfImsic? then Lines(Intcs(c, 0, Cpus(c)), [ExtIrq(w.mMode)]) else []
  {
    GatherImsics(OneImsic(c, true), OneImsic(c, false), w);
    assert ImsicNodes(c) == [OneImsic(c, true)] + [OneImsic(c, false)];
  }

  lemma SingleGather(c: Config, k: nat, w: Which)
    requires k < |c.socs| && k < XplicSockets(c) && (c.aia == NoAia || c.accel == Kvm)
    ensures Gather(XplicNodes(c, k), w)
            == if w == (if c.aia == NoAia then OfPlic else OfAplic(false)) then XplicNode(c, k).interrupts else []
  {
    SingleXplic(c, k);
    GatherOne(XplicNode(c, k), w);
  }

  lemma PairGather(c: Config, k: nat, w: Which)
    requires k < |c.socs| && k < XplicSockets(c) && c.aia != NoAia && c.accel != Kvm
    ensures Gather(XplicNodes(c, k), w)
            == if w == OfAplic(true) then OneAplic(c, true, k).interrupts
               else if w == OfAplic(false) then OneAplic(c, false, k).interrupts else []
  {
    GatherAplics(OneAplic(c, true, k), OneAplic(c, false, k), w);
  }

  lemma XplicGather(c: Config, k: nat, w: Which)
    requires k < |c.socs| && k < XplicSockets(c)
    ensures Gather(XplicNodes(c, k), w)
            == if w.OfPlic? || w.OfAplic? then Lines(SocketIntcs(c, k), IrqsOf(c, w)) else []
  {
    if c.aia == NoAia {
      PlicGather(c, k, w);
    } else {
      AplicGather(c, k, w);
    }
  }

  lemma PlicGather(c: Config, k: nat, w: Which)
    requires k < |c.socs| && k < XplicSockets(c) && c.aia == NoAia
    ensures Gather(XplicNodes(c, k), w)
            == if w.OfPlic? || w.OfAplic? then Lines(SocketIntcs(c, k), IrqsOf(c, w)) else []
  {
    LinesNone(SocketIntcs(c, k));
    SingleGather(c, k, w);
  }

  lemma AplicGather(c: Config, k: nat, w: Which)
    requires k < |c.socs| && k < XplicSockets(c) && c.aia != NoAia
    ensures Gather(XplicNodes(c, k), w)
            == if w.OfPlic? || w.OfAplic? then Lines(SocketIntcs(c, k), IrqsOf(c, w)) else []
  {
    LinesNone(SocketIntcs(c, k));
    if c.accel == Kvm { SingleGather(c, k, w); } else { PairGather(c, k, w); }
  }

  lemma {:induction false} XplicsGather(c: Config, k: nat, w: Which)
    requires Accepted(c) && !KvmAia(c) && k <= |c.socs|
    ensures Pos(c, k) <= Cpus(c)
    ensures Gather(XplicsFrom(c, k), w)
            == if w.OfPlic? || w.OfAplic? then Lines(Intcs(c, Pos(c, k), Cpus(c) - Pos(c, k)), IrqsOf(c, w)) else []
    decreases |c.socs| - k
  {
    PosEnds(c);
    PosMonotone(c, k, |c.socs|);
    if k == |c.socs| {
    } else {
      XplicsGather(c, k + 1, w);
      XplicGather(c, k, w);
      GatherAppend(XplicsFrom(c, k + 1), XplicNodes(c, k), w);
      JoinSlice(c, k, IrqsOf(c, w));
    }
  }

  /** The one APLIC of KVM's AIA sends messages, so it lists no harts. */
  lemma KvmXplicsGather(c: Config, w: Which)
    requires Accepted(c) && KvmAia(c)
    ensures Gather(XplicsFrom(c, 0), w)
            == if w.OfPlic? || w.OfAplic? then Lines(Intcs(c, 0, Cpus(c)), IrqsOf(c, w)) else []
  {
    XplicGather(c, 0, w);
    LinesNone(SocketIntcs(c, 0));
    LinesNone(Intcs(c, 0, Cpus(c)));
    assert XplicsFrom(c, 1) == [];
    assert XplicsFrom(c, 0) == XplicNodes(c, 0);
  }

  lemma DevicesGather(c: Config, w: Which)
    requires 1 <= |c.socs|
    ensures Gather(DeviceNodes(c), w) == []
  {
    DevicesPlain(c);
    GatherPlain(DeviceNodes(c), w);
  }

  lemma DevicesPlain(c: Config)
    requires 1 <= |c.socs|
    ensures forall i :: 0 <= i < |DeviceNodes(c)| ==> Plain(DeviceNodes(c)[i])
  {
    assert forall i :: 0 <= i < |VirtioNodes(c)| ==> Plain(VirtioNodes(c)[i]);
    assert forall i :: 0 <= i < |ResetNodes(c)| ==> Plain(ResetNodes(c)[i]);
    assert forall i :: 0 <= i < |WiredNodes(c)| ==> Plain(WiredNodes(c)[i]);
  }

  lemma XplicsGatherAll(c: Config, w: Which)
    requires Accepted(c)
    ensures Gather(XplicsFrom(c, 0), w)
            == if w.OfPlic? || w.OfAplic? then Lines(Intcs(c, 0, Cpus(c)), IrqsOf(c, w)) else []
  {
    if KvmAia(c) {
      KvmXplicsGather(c, w);
    } else {
      AllIntcs(c);
      XplicsGather(c, 0, w);
    }
  }

  /** Joined over all sockets, the arrays of any kind of controller are what one socket holding all harts
      would list: every hart's controller, at that hart's position, once for each interrupt line. */
  lemma InterruptArraysComplete(c: Config, w: Which)
    requires Accepted(c)
    ensures Gather(Tree(c), w) == Lines(Intcs(c, 0, Cpus(c)), IrqsOf(c, w))
  {
    var all := Lines(Intcs(c, 0, Cpus(c)), IrqsOf(c, w));
    AllSocketsGather(c, w, all);
    ImsicGather(c, w);
    XplicsGatherAll(c, w);
    DevicesGather(c, w);
    TreeGather(c, w);
    OneOfThree(all, w.OfPlic? || w.OfAplic?, w.OfImsic?, w.OfTimer?);
  }

  lemma AllIntcs(c: Config)
    ensures Pos(c, 0) == 0 && Intcs(c, Pos(c, 0), Cpus(c) - Pos(c, 0)) == Intcs(c, 0, Cpus(c))
  {
  }

  lemma AllSocketsGather(c: Config, w: Which, all: seq<nat>)
    requires Accepted(c) && all == Lines(Intcs(c, 0, Cpus(c)), IrqsOf(c, w))
    ensures Gather(SocketsFrom(c, 0), w) == if w.OfTimer? then all else []
  {
    AllIntcs(c);
    SocketsGather(c, 0, w);
  }

  lemma OneOfThree(s: seq<nat>, x: bool, y: bool, z: bool)
    requires (x || y || z) && !(x && y) && !(x && z) && !(y && z)
    ensures [] + (if x then s else []) + (if y then s else []) + (if z then s else []) == s
  {
  }

  lemma TreeGather(c: Config, w: Which)
    requires 1 <= |c.socs|
    ensures Gather(Tree(c), w)
            == Gather(DeviceNodes(c), w) + Gather(XplicsFrom(c, 0), w) + Gather(ImsicNodes(c), w)
               + Gather(SocketsFrom(c, 0), w)
  {
    GatherJoin4(SocketsFrom(c, 0), ImsicNodes(c), XplicsFrom(c, 0), DeviceNodes(c), w);
  }

  /** Entry (g, l) of the joined arrays. */
  lemma EntryOf(c: Config, w: Which, g: nat, l: nat, at: nat)
    requires Accepted(c) && g < Cpus(c) && l < |IrqsOf(c, w)| && at == CellsFor(|IrqsOf(c, w)|, g) + 2 * l
    ensures at + 1 < |Gather(Tree(c), w)| == CellsFor(|IrqsOf(c, w)|, Cpus(c))
    ensures Gather(Tree(c), w)[at] == IntcPhandle(c, g) && Gather(Tree(c), w)[at + 1] == IrqsOf(c, w)[l]
  {
    InterruptArraysComplete(c, w);
    AllEntry(c, IrqsOf(c, w), g, l, at);
  }

  lemma AllEntry(c: Config, irqs: seq<nat>, g: nat, l: nat, at: nat)
    requires g < Cpus(c) && l < |irqs| <= 2 && at == CellsFor(|irqs|, g) + 2 * l
    ensures at + 1 < |Lines(Intcs(c, 0, Cpus(c)), irqs)| == CellsFor(|irqs|, Cpus(c))
    ensures Lines(Intcs(c, 0, Cpus(c)), irqs)[at] == IntcPhandle(c, g)
    ensures Lines(Intcs(c, 0, Cpus(c)), irqs)[at + 1] == irqs[l]
  {
    LinesEntry(Intcs(c, 0, Cpus(c)), irqs, g, l, at);
  }

  /** Read through the tree, the joined arrays name the interrupt controller of each hart in global order. */
  lemma EveryHartNamed(c: Config, w: Which, g: nat, l: nat, at: nat) returns (k: nat, hart: nat)
    requires Accepted(c) && g < Cpus(c) && l < |IrqsOf(c, w)| && at == CellsFor(|IrqsOf(c, w)|, g) + 2 * l
    ensures k < |c.socs| && Pos(c, k) <= g < Pos(c, k) + c.socs[k].numHarts
    ensures hart == c.socs[k].hartBase + (g - Pos(c, k))
    ensures at + 1 < |Gather(Tree(c), w)| == CellsFor(|IrqsOf(c, w)|, Cpus(c))
    ensures Gather(Tree(c), w)[at + 1] == IrqsOf(c, w)[l]
    ensures Resolve(Tree(c), Gather(Tree(c), w)[at]) == Some(CpuIntc(hart, 2 * (Cpus(c) - g)))
  {
    EntryOf(c, w, g, l, at);
    k := SocketOf(c, g);
    hart := c.socs[k].hartBase + (g - Pos(c, k));
    IntcAt(c, k, g - Pos(c, k), hart, Gather(Tree(c), w)[at]);
  }
}
