/** Walks over a list of tree nodes: phandles in creation order, following a phandle, and joining
    interrupts-extended arrays. Nothing here depends on a configuration. */
module TreeWalk {
  import opened Options
  import opened DeviceTree

  // ---------- phandles in creation order ----------

  function PhandleOf(n: Node): Option<nat> {
    match n
    case Cpu(_, _, p) => Some(p)
    case CpuIntc(_, p) => Some(p)
    case ImsicNode(_, _, _, _, p) => Some(p)
    case PlicNode(_, _, _, p) => Some(p)
    case AplicNode(_, _, _, _, _, _, p) => Some(p)
    case TestNode(_, p) => Some(p)
    case _ => None
  }

  function Phandles(ns: seq<Node>): seq<nat> {
    if ns == [] then []
    else
      var p := PhandleOf(ns[|ns| - 1]);
      Phandles(ns[..|ns| - 1]) + if p.Some? then [p.value] else []
  }

  /** Strictly ascending, within lo .. hi. */
  predicate Ascending(s: seq<nat>, lo: nat, hi: nat) {
    (forall i :: 0 <= i < |s| ==> lo <= s[i] < hi) && (forall i, j :: 0 <= i < j < |s| ==> s[i] < s[j])
  }

  /** The same, by recursion. */
  predicate Climbs(s: seq<nat>, lo: nat, hi: nat) {
    if s == [] then lo <= hi
    else s[|s| - 1] < hi && Climbs(s[..|s| - 1], lo, s[|s| - 1])
  }

  lemma {:induction false} ClimbsIsAscending(s: seq<nat>, lo: nat, hi: nat)
    requires Climbs(s, lo, hi)
    ensures Ascending(s, lo, hi) && lo <= hi
  {
    if s == [] {
    } else {
      var n := |s| - 1;
      ClimbsIsAscending(s[..n], lo, s[n]);
      assert forall i :: 0 <= i < n ==> s[i] == s[..n][i];
    }
  }

  /** Every number of lo .. hi, in order. */
  predicate Consecutive(s: seq<nat>, lo: nat, hi: nat) {
    lo + |s| == hi && forall i :: 0 <= i < |s| ==> s[i] == lo + i
  }

  lemma ClimbsWiden(s: seq<nat>, lo: nat, mid: nat, hi: nat)
    requires Climbs(s, lo, mid) && mid <= hi
    ensures Climbs(s, lo, hi)
  {
  }

  lemma {:induction false} ClimbsJoin(a: seq<nat>, b: seq<nat>, lo: nat, mid: nat, hi: nat)
    requires Climbs(a, lo, mid) && Climbs(b, mid, hi)
    ensures Climbs(a + b, lo, hi)
  {
    if b == [] {
      assert a + b == a;
      ClimbsWiden(a, lo, mid, hi);
    } else {
      assert (a + b)[..|a + b| - 1] == a + b[..|b| - 1];
      ClimbsJoin(a, b[..|b| - 1], lo, mid, b[|b| - 1]);
    }
  }

  lemma ConsecutiveJoin(a: seq<nat>, b: seq<nat>, lo: nat, mid: nat, hi: nat)
    requires Consecutive(a, lo, mid) && Consecutive(b, mid, hi)
    ensures Consecutive(a + b, lo, hi)
  {
  }

  lemma {:induction false} ConsecutiveClimbs(s: seq<nat>, lo: nat, hi: nat)
    requires Consecutive(s, lo, hi)
    ensures Climbs(s, lo, hi)
  {
    if s == [] {
    } else {
      ConsecutiveClimbs(s[..|s| - 1], lo, hi - 1);
    }
  }

  lemma ClimbsTwo(p: nat, q: nat, lo: nat, hi: nat)
    requires lo <= p < q < hi
    ensures Climbs([p, q], lo, hi)
  {
    assert [p, q][..1] == [p];
    assert [p][..0] == [];
  }

  lemma ClimbsOne(p: nat, lo: nat, hi: nat)
    requires lo <= p < hi
    ensures Climbs([p], lo, hi)
  {
    assert [p][..0] == [];
  }

  lemma {:induction false} AscendingAtLeast(s: seq<nat>, lo: nat, hi: nat, i: nat)
    requires Ascending(s, lo, hi) && i < |s|
    ensures s[i] >= lo + i
    decreases i
  {
    if i == 0 {
    } else {
      AscendingAtLeast(s, lo, hi, i - 1);
    }
  }

  lemma {:induction false} AscendingAtMost(s: seq<nat>, lo: nat, hi: nat, i: nat)
    requires Ascending(s, lo, hi) && i < |s|
    ensures s[i] + (|s| - i) <= hi
    decreases |s| - i
  {
    if i + 1 == |s| {
    } else {
      AscendingAtMost(s, lo, hi, i + 1);
    }
  }

  /** As many ascending numbers as there is room for are all of them. */
  lemma AscendingFull(s: seq<nat>, lo: nat, hi: nat)
    requires Ascending(s, lo, hi) && lo + |s| == hi
    ensures Consecutive(s, lo, hi)
  {
    forall i | 0 <= i < |s|
      ensures s[i] == lo + i
    {
      AscendingAtLeast(s, lo, hi, i);
      AscendingAtMost(s, lo, hi, i);
    }
  }

  lemma {:induction false} PhandlesAppend(a: seq<Node>, b: seq<Node>)
    ensures Phandles(a + b) == Phandles(a) + Phandles(b)
  {
    if b == [] {
      assert a + b == a;
    } else {
      assert (a + b)[..|a + b| - 1] == a + b[..|b| - 1];
      PhandlesAppend(a, b[..|b| - 1]);
    }
  }

  lemma PhandlesJoin4(a: seq<Node>, b: seq<Node>, c: seq<Node>, d: seq<Node>)
    ensures Phandles(a + b + c + d) == Phandles(a) + Phandles(b) + Phandles(c) + Phandles(d)
  {
    PhandlesAppend(a, b);
    PhandlesAppend(a + b, c);
    PhandlesAppend(a + b + c, d);
  }

  lemma ClimbsGrow(a: seq<Node>, b: seq<Node>, lo: nat, mid: nat, hi: nat)
    requires Climbs(Phandles(a), lo, mid) && Climbs(Phandles(b), mid, hi)
    ensures Climbs(Phandles(a + b), lo, hi) && |Phandles(a + b)| == |Phandles(a)| + |Phandles(b)|
  {
    PhandlesAppend(a, b);
    ClimbsJoin(Phandles(a), Phandles(b), lo, mid, hi);
  }

  lemma ClimbsPair(m: Node, n: Node, p: nat, q: nat, lo: nat, hi: nat)
    requires PhandleOf(m) == Some(p) && PhandleOf(n) == Some(q) && lo <= p < q < hi
    ensures Climbs(Phandles([m, n]), lo, hi) && |Phandles([m, n])| == 2
  {
    PhandlesTwo(m, n, p, q);
    ClimbsTwo(p, q, lo, hi);
  }

  lemma ClimbsSingle(n: Node, p: nat, lo: nat, hi: nat)
    requires PhandleOf(n) == Some(p) && lo <= p < hi
    ensures Climbs(Phandles([n]), lo, hi) && |Phandles([n])| == 1
  {
    PhandlesOne(n, p);
    ClimbsOne(p, lo, hi);
  }

  lemma {:induction false} PhandlesNone(ns: seq<Node>)
    requires forall i :: 0 <= i < |ns| ==> PhandleOf(ns[i]) == None
    ensures Phandles(ns) == []
  {
    if ns == [] {
    } else {
      PhandlesNone(ns[..|ns| - 1]);
    }
  }

  lemma PhandlesOne(n: Node, p: nat)
    requires PhandleOf(n) == Some(p)
    ensures Phandles([n]) == [p]
  {
    assert [n][..0] == [];
  }

  lemma PhandlesTwo(m: Node, n: Node, p: nat, q: nat)
    requires PhandleOf(m) == Some(p) && PhandleOf(n) == Some(q)
    ensures Phandles([m, n]) == [p, q]
  {
    assert [m, n] == [m] + [n];
    PhandlesOne(m, p);
    PhandlesOne(n, q);
    PhandlesAppend([m], [n]);
  }

  // ---------- following a phandle ----------

  /** The node a phandle refers to, searching from the end of the tree. */
  function Resolve(ns: seq<Node>, p: nat): Option<Node> {
    if ns == [] then None
    else if PhandleOf(ns[|ns| - 1]) == Some(p) then Some(ns[|ns| - 1])
    else Resolve(ns[..|ns| - 1], p)
  }

  lemma {:induction false} PhandleListed(ns: seq<Node>, n: Node)
    requires n in ns && PhandleOf(n).Some?
    ensures PhandleOf(n).value in Phandles(ns)
  {
    if n == ns[|ns| - 1] {
    } else {
      PhandleListed(ns[..|ns| - 1], n);
    }
  }

  lemma {:induction false} ResolveUnique(ns: seq<Node>, n: Node, hi: nat)
    requires Ascending(Phandles(ns), 1, hi) && n in ns && PhandleOf(n).Some?
    ensures Resolve(ns, PhandleOf(n).value) == Some(n)
  {
    var front, last := ns[..|ns| - 1], ns[|ns| - 1];
    if n !in front {
    } else {
      var p := PhandleOf(n).value;
      PhandleListed(front, n);
      var i :| 0 <= i < |Phandles(front)| && Phandles(front)[i] == p;
      assert Phandles(ns)[i] == p;
      assert PhandleOf(last).Some? ==> Phandles(ns)[|Phandles(front)|] == PhandleOf(last).value;
      assert Ascending(Phandles(front), 1, hi) by {
        assert Phandles(front) == Phandles(ns)[..|Phandles(front)|];
      }
      ResolveUnique(front, n, hi);
    }
  }

  lemma InEither(a: seq<Node>, b: seq<Node>, n: Node)
    ensures n in a + b <==> n in a || n in b
  {
  }

  /** Lists j and up, the highest first. */
  function FlatDown(lists: seq<seq<Node>>, j: nat): seq<Node>
    requires j <= |lists|
    decreases |lists| - j
  {
    if j == |lists| then [] else FlatDown(lists, j + 1) + lists[j]
  }

  lemma {:induction false} InFlatDown(lists: seq<seq<Node>>, k: nat, j: nat, n: Node)
    requires j <= k < |lists| && n in lists[k]
    ensures n in FlatDown(lists, j)
    decreases k - j
  {
    if j == k {
    } else {
      InFlatDown(lists, k, j + 1, n);
    }
    InEither(FlatDown(lists, j + 1), lists[j], n);
  }

  lemma {:induction false} FromFlatDown(lists: seq<seq<Node>>, j: nat, n: Node) returns (k: nat)
    requires j <= |lists| && n in FlatDown(lists, j)
    ensures k < |lists| && n in lists[k]
    decreases |lists| - j
  {
    InEither(FlatDown(lists, j + 1), lists[j], n);
    if n in lists[j] {
      k := j;
    } else {
      k := FromFlatDown(lists, j + 1, n);
    }
  }

  // ---------- interrupt arrays over all sockets ----------

  /** A kind of node that carries an interrupts-extended array. */
  datatype Which = OfTimer(kind: TimerKind) | OfPlic | OfAplic(mMode: bool) | OfImsic(mMode: bool)

  function CellsOf(n: Node, w: Which): seq<nat> {
    match n
    case Timer(kind, _, _, cells) => if w == OfTimer(kind) then cells else []
    case PlicNode(_, _, cells, _) => if w == OfPlic then cells else []
    case AplicNode(m, _, _, cells, _, _, _) => if w == OfAplic(m) then cells else []
    case ImsicNode(m, _, cells, _, _) => if w == OfImsic(m) then cells else []
    case _ => []
  }

  /** The arrays of all nodes of a kind, joined from the last created (socket 0) to the first. */
  function Gather(ns: seq<Node>, w: Which): seq<nat> {
    if ns == [] then [] else CellsOf(ns[|ns| - 1], w) + Gather(ns[..|ns| - 1], w)
  }

  lemma {:induction false} GatherAppend(a: seq<Node>, b: seq<Node>, w: Which)
    ensures Gather(a + b, w) == Gather(b, w) + Gather(a, w)
  {
    if b == [] {
      assert a + b == a;
    } else {
      var front := b[..|b| - 1];
      assert (a + b)[..|a + b| - 1] == a + front;
      GatherAppend(a, front, w);
      JoinsAssociate(CellsOf(b[|b| - 1], w), Gather(front, w), Gather(a, w));
    }
  }

  lemma JoinsAssociate(x: seq<nat>, y: seq<nat>, z: seq<nat>)
    ensures x + (y + z) == (x + y) + z
  {
  }

  lemma GatherOne(n: Node, w: Which)
    ensures Gather([n], w) == CellsOf(n, w)
  {
    assert [n][..0] == [];
  }

  lemma {:induction false} GatherNone(ns: seq<Node>, w: Which)
    requires forall i :: 0 <= i < |ns| ==> CellsOf(ns[i], w) == []
    ensures Gather(ns, w) == []
  {
    if ns == [] {
    } else {
      GatherNone(ns[..|ns| - 1], w);
    }
  }

  lemma {:induction false} LinesNone(ps: seq<nat>)
    ensures Lines(ps, []) == []
  {
    if ps == [] {
    } else {
      LinesNone(ps[..|ps| - 1]);
    }
  }

  lemma {:induction false} LinesAppend(a: seq<nat>, b: seq<nat>, irqs: seq<nat>)
    ensures Lines(a + b, irqs) == Lines(a, irqs) + Lines(b, irqs)
  {
    if b == [] {
      assert a + b == a;
    } else {
      var front := b[..|b| - 1];
      assert (a + b)[..|a + b| - 1] == a + front;
      LinesAppend(a, front, irqs);
      JoinsAssociate(Lines(a, irqs), Lines(front, irqs), HartLines(b[|b| - 1], irqs));
    }
  }

  lemma GatherJoin4(a: seq<Node>, b: seq<Node>, c: seq<Node>, d: seq<Node>, w: Which)
    ensures Gather(a + b + c + d, w) == Gather(d, w) + Gather(c, w) + Gather(b, w) + Gather(a, w)
  {
    GatherAppend(a, b, w);
    GatherAppend(a + b, c, w);
    GatherAppend(a + b + c, d, w);
    Join4(Gather(d, w), Gather(c, w), Gather(b, w), Gather(a, w));
  }

  lemma Join4(d: seq<nat>, c: seq<nat>, b: seq<nat>, a: seq<nat>)
    ensures d + (c + (b + a)) == d + c + b + a
  {
    JoinsAssociate(c, b, a);
    JoinsAssociate(d, c + b, a);
    JoinsAssociate(d, c, b);
  }

  /** Only the last of four lists has arrays of the kind. */
  lemma GatherLast4(a: seq<Node>, b: seq<Node>, c: seq<Node>, d: seq<Node>, w: Which)
    requires Gather(a, w) == [] && Gather(b, w) == [] && Gather(c, w) == []
    ensures Gather(a + b + c + d, w) == Gather(d, w)
  {
    GatherJoin4(a, b, c, d, w);
  }

  /** Nodes without an interrupts-extended array. */
  predicate Plain(n: Node) {
    !n.Timer? && !n.PlicNode? && !n.AplicNode? && !n.ImsicNode?
  }

  lemma GatherPlain(ns: seq<Node>, w: Which)
    requires forall i :: 0 <= i < |ns| ==> Plain(ns[i])
    ensures Gather(ns, w) == []
  {
    GatherNone(ns, w);
  }

  lemma GatherTimers(m: Node, t: Node, s: Node, w: Which)
    requires m.Timer? && m.kind == Mswi && t.Timer? && t.kind == MtimerTimer && s.Timer? && s.kind == SswiTimer
    ensures Gather([m] + [t] + [s], w)
            == if w == OfTimer(Mswi) then m.interrupts else if w == OfTimer(MtimerTimer) then t.interrupts
               else if w == OfTimer(SswiTimer) then s.interrupts else []
  {
    GatherOne(m, w);
    GatherOne(t, w);
    GatherOne(s, w);
    GatherAppend([m], [t], w);
    GatherAppend([m] + [t], [s], w);
  }

  lemma GatherImsics(m: Node, s: Node, w: Which)
    requires m.ImsicNode? && m.mMode && s.ImsicNode? && !s.mMode
    ensures Gather([m] + [s], w)
            == if w == OfImsic(true) then m.interrupts else if w == OfImsic(false) then s.interrupts else []
  {
    GatherOne(m, w);
    GatherOne(s, w);
    GatherAppend([m], [s], w);
  }

  lemma GatherAplics(m: Node, s: Node, w: Which)
    requires m.AplicNode? && m.mMode && s.AplicNode? && !s.mMode
    ensures Gather([m] + [s], w)
            == if w == OfAplic(true) then m.interrupts else if w == OfAplic(false) then s.interrupts else []
  {
    GatherOne(m, w);
    GatherOne(s, w);
    GatherAppend([m], [s], w);
  }

  // ---------- entries of a cell array ----------

  /** How many cells k harts with n interrupt lines each take up; no node lists more than two. */
  function CellsFor(n: nat, k: nat): nat
    requires n <= 2
  {
    if n == 0 then 0 else if n == 1 then 2 * k else 4 * k
  }

  lemma {:induction false} LinesLength(ps: seq<nat>, irqs: seq<nat>)
    requires |irqs| <= 2
    ensures |Lines(ps, irqs)| == CellsFor(|irqs|, |ps|)
  {
    if ps == [] {
    } else {
      LinesLength(ps[..|ps| - 1], irqs);
      HartLinesLength(ps[|ps| - 1], irqs);
    }
  }

  lemma {:induction false} HartLinesLength(p: nat, irqs: seq<nat>)
    ensures |HartLines(p, irqs)| == 2 * |irqs|
  {
    if irqs == [] {
    } else {
      HartLinesLength(p, irqs[..|irqs| - 1]);
    }
  }

  lemma HartLinesOne(p: nat, irq: nat)
    ensures HartLines(p, [irq]) == [p, irq]
  {
    assert [irq][..0] == [];
  }

  lemma HartLinesTwo(p: nat, a: nat, b: nat)
    ensures HartLines(p, [a, b]) == [p, a, p, b]
  {
    assert [a, b][..1] == [a];
    HartLinesOne(p, a);
  }

  /** Entry l of one hart's cells. */
  lemma HartLinesEntry(p: nat, irqs: seq<nat>, l: nat)
    requires l < |irqs| <= 2
    ensures |HartLines(p, irqs)| == 2 * |irqs|
    ensures HartLines(p, irqs)[2 * l] == p && HartLines(p, irqs)[2 * l + 1] == irqs[l]
  {
    if |irqs| == 1 {
      assert irqs == [irqs[0]];
      HartLinesOne(p, irqs[0]);
    } else {
      assert irqs == [irqs[0], irqs[1]];
      HartLinesTwo(p, irqs[0], irqs[1]);
    }
  }

  /** Entry (j, l) of an array of one or two lines per hart is controller j with line l. */
  lemma {:induction false} LinesEntry(ps: seq<nat>, irqs: seq<nat>, j: nat, l: nat, at: nat)
    requires j < |ps| && l < |irqs| <= 2 && at == CellsFor(|irqs|, j) + 2 * l
    ensures at + 1 < |Lines(ps, irqs)| == CellsFor(|irqs|, |ps|)
    ensures Lines(ps, irqs)[at] == ps[j] && Lines(ps, irqs)[at + 1] == irqs[l]
  {
    var n := |ps| - 1;
    LinesLength(ps[..n], irqs);
    HartLinesEntry(ps[n], irqs, l);
    if j == n {
    } else {
      LinesEntry(ps[..n], irqs, j, l, at);
    }
  }
}
