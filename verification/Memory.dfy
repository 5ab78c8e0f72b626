/** The backing memory of the demo platform: an array of 32-bit words behind a TLM-2 target socket. */
module MemoryModel {
  import opened Arithmetic
  import opened Words

  const SIZE: nat := 0x600_0000
  const MEM_BYTES: nat := 4 * SIZE

  datatype Command = Read | Write | Ignore
  datatype Status = Ok | AddressError | ByteEnableError | BurstError

  /** The target's checks, in its own order. `word` is the address divided by four. */
  function CheckPayload(word: nat, len: uint32, byteEnables: bool, width: uint32): (s: Status)
    ensures s == Ok ==> 4 * word + len <= MEM_BYTES
  {
    if word >= SIZE then AddressError
    else if byteEnables then ByteEnableError
    else if len > 4 || width < len then BurstError
    else Ok
  }

  /** A payload is accepted exactly when its word exists, it has no byte enables, and it is one word or less, in one
      beat; a refusal names the first of the three that fails. */
  lemma PayloadAccepted(word: nat, len: uint32, byteEnables: bool, width: uint32)
    ensures var s := CheckPayload(word, len, byteEnables, width);
            && (s == Ok <==> word < 0x600_0000 && !byteEnables && len <= 4 && len <= width)
            && (s == AddressError <==> word >= 0x600_0000)
            && (s == ByteEnableError <==> word < 0x600_0000 && byteEnables)
  {
  }

  /** Bytes the debug transport copies; SIZE - word is computed in 64 bits and the result kept in 32. */
  function DebugBytes(word: nat, len: uint32): uint32 {
    var room := (SIZE - word) * 4 % 0x1_0000_0000_0000_0000;
    if len < room then len else room % 0x1_0000_0000
  }

  /** The n bytes from `at` on. */
  function Slice(m: seq<byte>, at: nat, n: nat): seq<byte>
    requires at + n <= |m|
  {
    m[at..at + n]
  }

  // ---------- the word array as the guest sees it ----------

  function CellOf(m: seq<byte>, k: nat): uint32
    requires 4 * k + 4 <= |m|
  {
    FromLEBound(m[4 * k..4 * k + 4]);
    Pow256Of4();
    FromLE(m[4 * k..4 * k + 4])
  }

  function Cells(m: seq<byte>): (c: seq<uint32>)
    ensures |c| == |m| / 4
    ensures forall k :: 0 <= k < |c| ==> c[k] == CellOf(m, k)
  {
    seq(|m| / 4, k requires 0 <= k < |m| / 4 => CellOf(m, k))
  }

  /** The low n bytes of a cell, zero-extended. */
  function GetLow(cell: uint32, n: nat): uint32 {
    ModAtMost(cell, Pow256(n));
    cell % Pow256(n)
  }

  /** The remainder of v and the quotient of cell by p, put together. */
  function Merge(cell: nat, v: nat, p: nat): nat
    requires 0 < p
  {
    v % p + p * (cell / p)
  }

  lemma MergeParts(cell: nat, v: nat, p: nat)
    requires 0 < p
    ensures Merge(cell, v, p) % p == v % p && Merge(cell, v, p) / p == cell / p
  {
    DivModUnique(Merge(cell, v, p), p, cell / p, v % p);
  }

  /** A cell whose low n bytes are replaced by those of v. */
  function PutLow(cell: uint32, v: nat, n: nat): uint32
    requires n <= 4
  {
    PutLowBound(cell, v, n);
    Merge(cell, v, Pow256(n))
  }

  lemma Pow256Of4()
    ensures Pow256(0) == 1 && Pow256(1) == 0x100 && Pow256(2) == 0x1_0000
    ensures Pow256(3) == 0x100_0000 && Pow256(4) == 0x1_0000_0000
  {
    assert Pow256(1) == 256 * Pow256(0);
    assert Pow256(2) == 256 * Pow256(1);
    assert Pow256(3) == 256 * Pow256(2);
    assert Pow256(4) == 256 * Pow256(3);
  }

  lemma MergeBound(cell: nat, v: nat, p: nat, m: nat)
    requires 0 < p && cell < p * m
    ensures Merge(cell, v, p) < p * m
  {
    var q := cell / p;
    assert cell == p * q + cell % p;
    if q >= m {
      AtMostTimes(m, q, p);
    } else {
      AtMostTimes(q + 1, m, p);
    }
  }

  lemma PutLowBound(cell: uint32, v: nat, n: nat)
    requires n <= 4
    ensures Merge(cell, v, Pow256(n)) < 0x1_0000_0000
  {
    Pow256Of4();
    var m := if n == 0 then 0x1_0000_0000 else if n == 1 then 0x100_0000 else if n == 2 then 0x1_0000
             else if n == 3 then 0x100 else 1;
    MergeBound(cell, v, Pow256(n), m);
  }

  /** Low bytes of low bytes. */
  lemma LowOfLow(v: nat, n: nat, m: nat)
    requires m <= n
    ensures v % Pow256(n) % Pow256(m) == v % Pow256(m)
  {
    LERoundTrip(v, n);
    LESplit(ToLE(v, n), m);
    ToLEPrefix(v, m, n);
    LERoundTrip(v, m);
  }

  /** What was put in the low n bytes is what a later read of at most n bytes gets; the rest is kept. */
  lemma PutThenGet(cell: uint32, v: nat, n: nat, m: nat)
    requires m <= n <= 4
    ensures GetLow(PutLow(cell, v, n), m) == v % Pow256(m)
    ensures PutLow(cell, v, n) / Pow256(n) == cell / Pow256(n)
  {
    MergeParts(cell, v, Pow256(n));
    LowOfLow(PutLow(cell, v, n), n, m);
    LowOfLow(v, n, m);
  }

  /** Copying n bytes out of word k reads the low n bytes of that cell. */
  lemma ReadIsGetLow(m: seq<byte>, k: nat, n: nat)
    requires n <= 4 && 4 * k + 4 <= |m|
    ensures FromLE(m[4 * k..4 * k + n]) == GetLow(CellOf(m, k), n)
  {
    var w := m[4 * k..4 * k + 4];
    assert m[4 * k..4 * k + n] == w[..n];
    LESplit(w, n);
  }

  lemma PatchedCell(m: seq<byte>, k: nat, v: nat, n: nat)
    requires n <= 4 && 4 * k + 4 <= |m|
    ensures CellOf(Patch(m, 4 * k, ToLE(v, n)), k) == PutLow(CellOf(m, k), v, n)
  {
    var w := m[4 * k..4 * k + 4];
    assert Patch(m, 4 * k, ToLE(v, n))[4 * k..4 * k + 4] == ToLE(v, n) + w[n..];
    LEOverwrite(w, v, n);
  }

  lemma OtherCell(m: seq<byte>, k: nat, src: seq<byte>, j: nat)
    requires |src| <= 4 && 4 * k + 4 <= |m| && 4 * j + 4 <= |m| && j != k
    ensures CellOf(Patch(m, 4 * k, src), j) == CellOf(m, j)
  {
    assert Patch(m, 4 * k, src)[4 * j..4 * j + 4] == m[4 * j..4 * j + 4];
  }

  /** Copying n bytes into word k changes that one cell, and only its low n bytes. */
  lemma WriteIsPutLow(m: seq<byte>, k: nat, v: nat, n: nat)
    requires n <= 4 && 4 * k + 4 <= |m|
    ensures Cells(Patch(m, 4 * k, ToLE(v, n))) == Cells(m)[k := PutLow(CellOf(m, k), v, n)]
  {
    PatchedCell(m, k, v, n);
    forall j | 0 <= j < |m| / 4 && j != k
      ensures CellOf(Patch(m, 4 * k, ToLE(v, n)), j) == CellOf(m, j)
    {
      OtherCell(m, k, ToLE(v, n), j);
    }
  }

  // ---------- what the word granularity costs ----------

  /** Writes put the bytes where byte-addressed memory would exactly when the address is word aligned. */
  lemma WritesByteAddressedIffAligned(addr: nat, n: nat)
    requires 1 <= n <= 4 && addr + n <= MEM_BYTES
    ensures addr % 4 == 0
            <==> forall m: seq<byte>, src: seq<byte> ::
                   |m| == MEM_BYTES && |src| == n ==> Patch(m, 4 * (addr / 4), src) == Patch(m, addr, src)
  {
    if addr % 4 != 0 {
      var m: seq<byte> := seq(MEM_BYTES, _ => 0);
      var src: seq<byte> := seq(n, _ => 1);
      assert Patch(m, 4 * (addr / 4), src)[4 * (addr / 4)] == 1;
      assert Patch(m, addr, src)[4 * (addr / 4)] == 0;
    }
  }

  /** Reads fetch the bytes that byte-addressed memory would exactly when the address is word aligned. */
  lemma ReadsByteAddressedIffAligned(addr: nat, n: nat)
    requires 1 <= n <= 4 && addr + n <= MEM_BYTES
    ensures addr % 4 == 0
            <==> forall m: seq<byte> :: |m| == MEM_BYTES ==> Slice(m, 4 * (addr / 4), n) == Slice(m, addr, n)
  {
    if addr % 4 != 0 {
      var m: seq<byte> := seq(MEM_BYTES, i requires 0 <= i => if i < addr then 0 else 1);
      assert Slice(m, 4 * (addr / 4), n)[0] == 0;
      assert Slice(m, addr, n)[0] == 1;
    }
  }

  /** The debug copy stays inside the array for every length exactly when the word address is in range
      (or one past the end, where nothing is copied). */
  lemma DebugCopyInRangeIff(word: nat)
    requires word < 0x4000_0000_0000_0000
    ensures word <= SIZE <==> forall len: uint32 :: 4 * word + DebugBytes(word, len) <= MEM_BYTES
  {
    if word > SIZE {
      assert DebugBytes(word, 1) == 1;
    }
  }

  class Memory {
    const mem: array<byte>

    ghost predicate Valid()
      reads this
    {
      mem.Length == MEM_BYTES
    }

    /** The words start at arbitrary values, supplied by the caller. */
    constructor (init: seq<byte>)
      requires |init| == MEM_BYTES
      ensures Valid() && fresh(mem) && mem[..] == init
    {
      mem := new byte[MEM_BYTES](i requires 0 <= i < |init| => init[i]);
    }

    method BTransport(cmd: Command, address: uint64, ptr: array<byte>, len: uint32, byteEnables: bool, width: uint32)
      returns (status: Status)
      requires Valid() && ptr != mem && (len <= 4 ==> len <= ptr.Length)
      modifies mem, ptr
      ensures status == CheckPayload(address / 4, len, byteEnables, width)
      ensures status == Ok && cmd == Write
              ==> mem[..] == Patch(old(mem[..]), 4 * (address / 4), old(ptr[..len]))
      ensures status == Ok && cmd == Read
              ==> ptr[..] == Slice(old(mem[..]), 4 * (address / 4), len) + old(ptr[len..])
      ensures !(status == Ok && cmd == Write) ==> mem[..] == old(mem[..])
      ensures !(status == Ok && cmd == Read) ==> ptr[..] == old(ptr[..])
    {
      var word := address / 4;
      status := CheckPayload(word, len, byteEnables, width);
      if status != Ok {
        return;
      }
      if cmd == Read {
        forall i | 0 <= i < len { ptr[i] := mem[4 * word + i]; }
      } else if cmd == Write {
        forall i | 0 <= i < len { mem[4 * word + i] := ptr[i]; }
      }
    }

    /** `overrun` says that the copy would leave the array; what it then does is undefined, and the model
        stops before it. */
    method TransportDbg(cmd: Command, address: uint64, ptr: array<byte>, len: uint32)
      returns (copied: uint32, overrun: bool)
      requires Valid() && ptr != mem && len <= ptr.Length
      modifies mem, ptr
      ensures copied == DebugBytes(address / 4, len)
      ensures address / 4 <= SIZE
              ==> copied == if len < (SIZE - address / 4) * 4 then len else (SIZE - address / 4) * 4
      ensures overrun <==> cmd != Ignore && 4 * (address / 4) + copied > MEM_BYTES
      ensures address / 4 <= SIZE ==> !overrun
      ensures !overrun && cmd == Write ==> mem[..] == Patch(old(mem[..]), 4 * (address / 4), old(ptr[..copied]))
      ensures !overrun && cmd == Read
              ==> ptr[..] == Slice(old(mem[..]), 4 * (address / 4), copied) + old(ptr[copied..])
      ensures overrun || cmd != Write ==> mem[..] == old(mem[..])
      ensures overrun || cmd != Read ==> ptr[..] == old(ptr[..])
    {
      var word := address / 4;
      copied := DebugBytes(word, len);
      overrun := cmd != Ignore && 4 * word + copied > MEM_BYTES;
      if overrun {
        return;
      }
      if cmd == Read {
        forall i | 0 <= i < copied { ptr[i] := mem[4 * word + i]; }
      } else if cmd == Write {
        forall i | 0 <= i < copied { mem[4 * word + i] := ptr[i]; }
      }
    }
  }
}
