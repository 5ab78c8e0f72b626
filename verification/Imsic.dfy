/** IMSIC addressing: the index widths the device tree announces decode every interrupt-file page back to
    its socket, hart and guest (section 3.6 of the RISC-V Advanced Interrupt Architecture). */
module Imsic {
  import opened Options
  import opened Arithmetic
  import opened Board

  function Pow2(n: nat): (r: nat)
    ensures r > 0
  {
    if n == 0 then 1 else 2 * Pow2(n - 1)
  }

  /** The least b with count <= 2^b; BitsSpec says so. */
  function Bits(count: nat): nat {
    BitsFrom(count, 0)
  }

  function BitsFrom(count: nat, b: nat): nat
    decreases if Pow2(b) < count then count - Pow2(b) else 0
  {
    if Pow2(b) < count then BitsFrom(count, b + 1) else b
  }

  lemma {:induction false} BitsFromSpec(count: nat, b: nat)
    requires forall k :: 0 <= k < b ==> Pow2(k) < count
    ensures count <= Pow2(BitsFrom(count, b))
    ensures forall k :: 0 <= k < BitsFrom(count, b) ==> Pow2(k) < count
    decreases if Pow2(b) < count then count - Pow2(b) else 0
  {
    if count <= Pow2(b) {
    } else {
      BitsFromSpec(count, b + 1);
    }
  }

  lemma BitsSpec(count: nat)
    ensures count <= Pow2(Bits(count))
    ensures forall k :: 0 <= k < Bits(count) ==> Pow2(k) < count
  {
    BitsFromSpec(count, 0);
  }

  lemma {:induction false} Pow2Monotone(a: nat, b: nat)
    requires a <= b
    ensures Pow2(a) <= Pow2(b)
  {
    if a == b {
    } else {
      Pow2Monotone(a, b - 1);
    }
  }

  lemma {:induction false} Pow2Add(a: nat, b: nat)
    ensures Pow2(a + b) == Pow2(a) * Pow2(b)
  {
    if a == 0 {
    } else {
      Pow2Add(a - 1, b);
      assert 2 * (Pow2(a - 1) * Pow2(b)) == (2 * Pow2(a - 1)) * Pow2(b);
    }
  }

  /** Leastness pins the result down, and makes it monotone in the count. */
  lemma BitsLeast(count: nat, b: nat)
    requires count <= Pow2(b)
    ensures Bits(count) <= b
  {
    BitsSpec(count);
    assert b < Bits(count) ==> Pow2(b) < count;
  }

  lemma BitsMonotone(a: nat, b: nat)
    requires a <= b
    ensures Bits(a) <= Bits(b)
  {
    BitsSpec(b);
    BitsLeast(a, Bits(b));
  }

  lemma Pow2Values()
    ensures Pow2(0) == 1 && Pow2(1) == 2 && Pow2(2) == 4 && Pow2(3) == 8
    ensures Pow2(9) == 512 && Pow2(12) == 4096 && Pow2(24) == 0x100_0000
  {
    assert Pow2(3) == 8;
    assert Pow2(6) == 64;
    assert Pow2(9) == 512;
    assert Pow2(12) == 4096;
    Pow2Add(12, 12);
  }

  /** The shift loop; a 32-bit count needs at most 32 rounds, so the 64-bit BIT(ret) never overflows. */
  method NumBits(count: nat) returns (ret: nat)
    requires count < 0x1_0000_0000
    ensures ret == Bits(count) && ret <= 32
  {
    ret := 0;
    BitsSpec(count);
    Pow2Values();
    Pow2Add(24, 8);
    Pow2Add(4, 4);
    assert Pow2(4) == 16;
    while Pow2(ret) < count
      invariant ret <= Bits(count)
      invariant forall k :: 0 <= k < ret ==> Pow2(k) < count
      decreases Bits(count) - ret
    {
      if ret >= Bits(count) {
        Pow2Monotone(Bits(count), ret);
      }
      ret := ret + 1;
    }
    BitsLeast(count, ret);
    BitsLeast(count, 32);
  }

  // ---------- layout and decoding ----------

  function HartSize(guestBits: nat): nat {
    Pow2(guestBits) * IMSIC_PAGE_SIZE
  }

  function PageAddress(base: nat, guestBits: nat, socket: nat, hart: nat, guest: nat): nat {
    base + socket * IMSIC_GROUP_MAX_SIZE + hart * HartSize(guestBits) + guest * IMSIC_PAGE_SIZE
  }

  /** The index properties of an IMSIC node; an absent width is None. */
  datatype Index = Index(guestBits: Option<nat>, hartBits: Option<nat>, groupBits: Option<nat>, groupShift: Option<nat>)

  datatype Place = Place(socket: nat, hart: nat, guest: nat)

  datatype Widths = Widths(guest: nat, hart: nat, group: nat, shift: nat)

  /** Absent widths mean no guest pages, no groups, and enough hart bits for all `parents` harts listed. */
  function Announced(i: Index, parents: nat): Widths {
    Widths(if i.guestBits.Some? then i.guestBits.value else 0,
           if i.hartBits.Some? then i.hartBits.value else Bits(parents),
           if i.groupBits.Some? then i.groupBits.value else 0,
           if i.groupShift.Some? then i.groupShift.value else IMSIC_GROUP_SHIFT)
  }

  function Decode(w: Widths, addr: nat): Place {
    Place(addr / Pow2(w.shift) % Pow2(w.group), addr / Pow2(w.guest + IMSIC_PAGE_SHIFT) % Pow2(w.hart),
          addr / IMSIC_PAGE_SIZE % Pow2(w.guest))
  }

  function MaxHarts(socs: seq<Soc>): nat {
    if socs == [] then 0
    else
      var m, h := MaxHarts(socs[..|socs| - 1]), socs[|socs| - 1].numHarts;
      if m < h then h else m
  }

  lemma {:induction false} MaxHartsIsMax(socs: seq<Soc>)
    ensures forall k :: 0 <= k < |socs| ==> socs[k].numHarts <= MaxHarts(socs)
    ensures MaxHarts(socs) <= Harts(socs)
  {
    if socs == [] {
    } else {
      MaxHartsIsMax(socs[..|socs| - 1]);
    }
  }

  /** The maximum is some socket's own count. */
  lemma {:induction false} MaxHartsAttained(socs: seq<Soc>) returns (k: nat)
    requires socs != []
    ensures k < |socs| && socs[k].numHarts == MaxHarts(socs)
  {
    var n := |socs| - 1;
    if n == 0 || MaxHarts(socs[..n]) < socs[n].numHarts {
      k := n;
    } else {
      k := MaxHartsAttained(socs[..n]);
    }
  }

  function GuestBits(c: Config, mMode: bool): nat {
    if mMode then 0 else Bits(c.guests + 1)
  }

  function ImsicBase(mMode: bool): nat {
    if mMode then IMSIC_M_BASE else IMSIC_S_BASE
  }

  /** The properties create_fdt_one_imsic emits. */
  function IndexOf(c: Config, mMode: bool): Index {
    var n, g := |c.socs|, GuestBits(c, mMode);
    Index(if g != 0 then Some(g) else None,
          if n > 1 then Some(Bits(MaxHarts(c.socs))) else None,
          if n > 1 then Some(Bits(n)) else None,
          if n > 1 then Some(IMSIC_GROUP_SHIFT) else None)
  }

  /** The widths are emitted only where needed, and are the least: 2^width harts, sockets or files are enough, and
      one bit less would not be. */
  lemma IndexLeast(c: Config, mMode: bool)
    requires Accepted(c)
    ensures IndexOf(c, mMode).hartBits.Some? <==> |c.socs| > 1
    ensures IndexOf(c, mMode).groupBits.Some? <==> |c.socs| > 1
    ensures IndexOf(c, mMode).groupShift == if |c.socs| > 1 then Some(24) else None
    ensures IndexOf(c, mMode).guestBits.Some? <==> !mMode && c.guests > 0
    ensures |c.socs| > 1 ==> forall b :: 0 <= b < IndexOf(c, mMode).hartBits.value
                                         ==> exists k :: 0 <= k < |c.socs| && c.socs[k].numHarts > Pow2(b)
    ensures |c.socs| > 1 ==> forall k :: 0 <= k < |c.socs|
                                         ==> c.socs[k].numHarts <= Pow2(IndexOf(c, mMode).hartBits.value)
    ensures |c.socs| > 1 ==> |c.socs| <= Pow2(IndexOf(c, mMode).groupBits.value)
                             && forall b :: 0 <= b < IndexOf(c, mMode).groupBits.value ==> Pow2(b) < |c.socs|
    ensures !mMode && c.guests > 0
            ==> 1 + c.guests <= Pow2(IndexOf(c, mMode).guestBits.value)
                && forall b :: 0 <= b < IndexOf(c, mMode).guestBits.value ==> Pow2(b) < 1 + c.guests
  {
    HartBitsLeast(c.socs);
    BitsSpec(|c.socs|);
    BitsSpec(c.guests + 1);
    BitsLeast(1, 0);
    Pow2Values();
  }

  lemma HartBitsLeast(socs: seq<Soc>)
    requires socs != []
    ensures forall b :: 0 <= b < Bits(MaxHarts(socs)) ==> exists k :: 0 <= k < |socs| && socs[k].numHarts > Pow2(b)
    ensures forall k :: 0 <= k < |socs| ==> socs[k].numHarts <= Pow2(Bits(MaxHarts(socs)))
  {
    BitsSpec(MaxHarts(socs));
    MaxHartsIsMax(socs);
    var m := MaxHartsAttained(socs);
  }

  lemma SlotSpan(g: nat, harts: nat)
    requires g <= 3 && harts <= CPUS_MAX
    ensures HartSize(g) == Pow2(g + IMSIC_PAGE_SHIFT)
    ensures HartSize(g) * harts <= IMSIC_GROUP_MAX_SIZE
  {
    Pow2Values();
    Pow2Add(g, 12);
    if g == 0 {} else if g == 1 {} else if g == 2 {} else { assert g == 3; }
  }

  /** The fields fit side by side: 12 page bits, guest bits and hart bits stay below the group shift. */
  lemma FieldsFit(c: Config, mMode: bool)
    requires Accepted(c)
    ensures GuestBits(c, mMode) <= 3 && c.guests + 1 <= Pow2(GuestBits(c, false))
    ensures Bits(MaxHarts(c.socs)) <= 9 && Bits(Cpus(c)) <= 9 && Bits(|c.socs|) <= 2
    ensures HartSize(GuestBits(c, mMode)) * MaxHarts(c.socs) <= IMSIC_GROUP_MAX_SIZE
  {
    Pow2Values();
    MaxHartsIsMax(c.socs);
    BitsSpec(c.guests + 1);
    BitsLeast(c.guests + 1, 3);
    BitsLeast(MaxHarts(c.socs), 9);
    BitsLeast(Cpus(c), 9);
    BitsLeast(|c.socs|, 2);
    SlotSpan(GuestBits(c, mMode), MaxHarts(c.socs));
  }

  // ---------- the three digits of a page address ----------

  /** Page number within the address space: group digits, hart digits, guest digits. */
  function PageNumber(top: nat, g: nat, hart: nat, guest: nat): nat {
    top * 4096 + hart * Pow2(g) + guest
  }

  lemma AddressShape(base: nat, g: nat, socket: nat, hart: nat, guest: nat)
    requires g <= 3 && hart < CPUS_MAX && guest < Pow2(g) && base % IMSIC_GROUP_MAX_SIZE == 0
    ensures HartSize(g) == Pow2(g + IMSIC_PAGE_SHIFT)
    ensures var top := base / IMSIC_GROUP_MAX_SIZE + socket;
            var addr := PageAddress(base, g, socket, hart, guest);
            && addr == PageNumber(top, g, hart, guest) * IMSIC_PAGE_SIZE
            && addr / IMSIC_GROUP_MAX_SIZE == top
            && addr / HartSize(g) == PageNumber(top, g, hart, guest) / Pow2(g)
  {
    Pow2Values();
    SlotSpan(g, 1);
    ShiftBoth(PageNumber(base / IMSIC_GROUP_MAX_SIZE + socket, g, hart, guest), g);
    PageBelowGroup(g, hart, guest);
    MulAssoc(hart, Pow2(g), IMSIC_PAGE_SIZE);
  }

  lemma PageBelowGroup(g: nat, hart: nat, guest: nat)
    requires g <= 3 && hart < CPUS_MAX && guest < Pow2(g)
    ensures 0 <= hart * Pow2(g) + guest < 4096
  {
    Pow2Values();
    if g == 0 {} else if g == 1 {} else if g == 2 {} else { assert g == 3; }
  }

  lemma ShiftBoth(v: nat, g: nat)
    requires g <= 3
    ensures v * IMSIC_PAGE_SIZE / (Pow2(g) * IMSIC_PAGE_SIZE) == v / Pow2(g)
  {
    Pow2Values();
    if g == 0 {} else if g == 1 {} else if g == 2 {} else { assert g == 3; }
  }

  lemma GuestDigit(top: nat, g: nat, hart: nat, guest: nat)
    requires g <= 3 && guest < Pow2(g)
    ensures PageNumber(top, g, hart, guest) % Pow2(g) == guest
    ensures PageNumber(top, g, hart, guest) / Pow2(g) == top * Pow2(12 - g) + hart
  {
    Pow2Values();
    Pow2Add(12 - g, g);
    JoinDigits(top, Pow2(12 - g), hart, Pow2(g), guest);
  }

  lemma JoinDigits(top: nat, a: nat, hart: nat, b: nat, guest: nat)
    requires guest < b
    ensures var v := top * (a * b) + hart * b + guest; v % b == guest && v / b == top * a + hart
  {
    Distribute(top, a, hart, b);
    LowDigit(1, top * a + hart, b, guest);
  }

  /** The group digits sit above the hart digits, so they vanish modulo the hart width. */
  lemma HartDigit(top: nat, g: nat, h: nat, hart: nat)
    requires g <= 3 && h <= 9 && hart < Pow2(h)
    ensures (top * Pow2(12 - g) + hart) % Pow2(h) == hart
  {
    Pow2Add(12 - g - h, h);
    LowDigit(top, Pow2(12 - g - h), Pow2(h), hart);
  }

  /** The bases have no bits where the group index goes. */
  lemma GroupDigit(n: nat, socket: nat, mMode: bool)
    requires n <= SOCKETS_MAX && socket < n
    ensures (ImsicBase(mMode) / IMSIC_GROUP_MAX_SIZE + socket) % Pow2(Bits(n)) == socket
  {
    Pow2Values();
    BitsSpec(n);
    BitsLeast(n, 2);
    var w := Bits(n);
    if w == 0 {} else if w == 1 {} else { assert w == 2; }
  }

  /** What the announced index amounts to: announced hart widths cover the fullest socket, the default one
      covers the only socket. */
  lemma ResolvedWidths(c: Config, mMode: bool, socket: nat, hart: nat) returns (h: nat)
    requires Accepted(c) && socket < |c.socs| && hart < c.socs[socket].numHarts
    ensures Announced(IndexOf(c, mMode), Cpus(c))
            == Widths(GuestBits(c, mMode), h, Bits(|c.socs|), IMSIC_GROUP_SHIFT)
    ensures h <= 9 && hart < Pow2(h)
  {
    FieldsFit(c, mMode);
    MaxHartsIsMax(c.socs);
    BitsLeast(1, 0);
    BitsSpec(MaxHarts(c.socs));
    BitsSpec(Cpus(c));
    h := if |c.socs| > 1 then Bits(MaxHarts(c.socs)) else Bits(Cpus(c));
    if |c.socs| == 1 {
      assert c.socs[..0] == [];
      assert Cpus(c) == c.socs[0].numHarts;
    }
  }

  lemma GroupOfAddress(mMode: bool, n: nat, g: nat, socket: nat, hart: nat, guest: nat)
    requires n <= SOCKETS_MAX && socket < n && g <= 3 && hart < CPUS_MAX && guest < Pow2(g)
    ensures PageAddress(ImsicBase(mMode), g, socket, hart, guest) / Pow2(IMSIC_GROUP_SHIFT) % Pow2(Bits(n)) == socket
  {
    Pow2Values();
    AddressShape(ImsicBase(mMode), g, socket, hart, guest);
    GroupDigit(n, socket, mMode);
  }

  lemma HartOfAddress(mMode: bool, g: nat, h: nat, socket: nat, hart: nat, guest: nat)
    requires g <= 3 && h <= 9 && hart < CPUS_MAX && hart < Pow2(h) && guest < Pow2(g)
    ensures PageAddress(ImsicBase(mMode), g, socket, hart, guest) / Pow2(g + IMSIC_PAGE_SHIFT) % Pow2(h) == hart
  {
    var top := ImsicBase(mMode) / IMSIC_GROUP_MAX_SIZE + socket;
    AddressShape(ImsicBase(mMode), g, socket, hart, guest);
    GuestDigit(top, g, hart, guest);
    HartDigit(top, g, h, hart);
  }

  lemma GuestOfAddress(mMode: bool, g: nat, socket: nat, hart: nat, guest: nat)
    requires g <= 3 && hart < CPUS_MAX && guest < Pow2(g)
    ensures PageAddress(ImsicBase(mMode), g, socket, hart, guest) / IMSIC_PAGE_SIZE % Pow2(g) == guest
  {
    var top := ImsicBase(mMode) / IMSIC_GROUP_MAX_SIZE + socket;
    AddressShape(ImsicBase(mMode), g, socket, hart, guest);
    GuestDigit(top, g, hart, guest);
  }

  /** The three digits of any address of the layout, for any sufficient widths. */
  lemma DigitsOfAddress(mMode: bool, n: nat, g: nat, h: nat, socket: nat, hart: nat, guest: nat)
    requires n <= SOCKETS_MAX && socket < n
    requires g <= 3 && h <= 9 && hart < Pow2(h) && guest < Pow2(g)
    ensures var addr := PageAddress(ImsicBase(mMode), g, socket, hart, guest);
            && addr / Pow2(IMSIC_GROUP_SHIFT) % Pow2(Bits(n)) == socket
            && addr / Pow2(g + IMSIC_PAGE_SHIFT) % Pow2(h) == hart
            && addr / IMSIC_PAGE_SIZE % Pow2(g) == guest
  {
    Pow2Values();
    Pow2Monotone(h, 9);
    GroupOfAddress(mMode, n, g, socket, hart, guest);
    HartOfAddress(mMode, g, h, socket, hart, guest);
    GuestOfAddress(mMode, g, socket, hart, guest);
  }

  /** Every page of every interrupt file decodes to its own socket, hart and guest. */
  lemma RoundTrip(c: Config, mMode: bool, socket: nat, hart: nat, guest: nat)
    requires Accepted(c) && socket < |c.socs| && hart < c.socs[socket].numHarts
    requires if mMode then guest == 0 else guest <= c.guests
    ensures var addr := PageAddress(ImsicBase(mMode), GuestBits(c, mMode), socket, hart, guest);
            Decode(Announced(IndexOf(c, mMode), Cpus(c)), addr) == Place(socket, hart, guest)
  {
    var h := ResolvedWidths(c, mMode, socket, hart);
    FieldsFit(c, mMode);
    DigitsOfAddress(mMode, |c.socs|, GuestBits(c, mMode), h, socket, hart, guest);
  }
}
