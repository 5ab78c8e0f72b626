/** Machine words and little-endian byte strings, as memcpy sees them on the host. */
module Words {
  import opened Arithmetic

  type byte = x: nat | x < 0x100
  type uint32 = x: nat | x < 0x1_0000_0000
  type uint64 = x: nat | x < 0x1_0000_0000_0000_0000

  function Pow256(n: nat): (r: nat)
    ensures r > 0
  {
    if n == 0 then 1 else 256 * Pow256(n - 1)
  }

  /** The number a little-endian byte string denotes. */
  function FromLE(s: seq<byte>): nat {
    if s == [] then 0 else s[0] + 256 * FromLE(s[1..])
  }

  /** The low n bytes of v, least significant first. */
  function ToLE(v: nat, n: nat): (s: seq<byte>)
    ensures |s| == n
  {
    if n == 0 then [] else [v % 256] + ToLE(v / 256, n - 1)
  }

  /** Bytes of m from `at` on replaced by src. */
  function Patch(m: seq<byte>, at: nat, src: seq<byte>): (r: seq<byte>)
    requires at + |src| <= |m|
    ensures |r| == |m|
    ensures forall i :: 0 <= i < |m| ==> r[i] == if at <= i < at + |src| then src[i - at] else m[i]
  {
    m[..at] + src + m[at + |src|..]
  }

  lemma {:induction false} FromLEBound(s: seq<byte>)
    ensures FromLE(s) < Pow256(|s|)
  {
    if s == [] {
    } else {
      FromLEBound(s[1..]);
    }
  }

  lemma {:induction false} FromLEAppend(a: seq<byte>, b: seq<byte>)
    ensures FromLE(a + b) == FromLE(a) + Pow256(|a|) * FromLE(b)
  {
    if a == [] {
      assert a + b == b;
    } else {
      FromLEAppend(a[1..], b);
      assert (a + b)[1..] == a[1..] + b;
      MulAssoc(256, Pow256(|a| - 1), FromLE(b));
    }
  }

  /** Remainders by 256p, one byte at a time. */
  lemma PeelByte(v: nat, p: nat)
    requires 0 < p
    ensures v % (256 * p) == v % 256 + 256 * (v / 256 % p)
    ensures v % (256 * p) % 256 == v % 256 && v % (256 * p) / 256 == v / 256 % p
  {
    var w := v / 256;
    assert w == p * (w / p) + w % p;
    MulAssoc(256, p, w / p);
    DivModUnique(v, 256 * p, w / p, v % 256 + 256 * (w % p));
    DivModUnique(v % 256 + 256 * (w % p), 256, w % p, v % 256);
  }

  /** Encoding n bytes and decoding them keeps v modulo 256^n. */
  lemma {:induction false} LERoundTrip(v: nat, n: nat)
    ensures FromLE(ToLE(v, n)) == v % Pow256(n)
  {
    if n == 0 {
    } else {
      LERoundTrip(v / 256, n - 1);
      PeelByte(v, Pow256(n - 1));
      assert ToLE(v, n)[1..] == ToLE(v / 256, n - 1);
    }
  }

  /** Cutting a byte string at n is division with remainder by 256^n. */
  lemma LESplit(s: seq<byte>, n: nat)
    requires n <= |s|
    ensures FromLE(s[..n]) == FromLE(s) % Pow256(n)
    ensures FromLE(s[n..]) == FromLE(s) / Pow256(n)
  {
    assert s[..n] + s[n..] == s;
    FromLEAppend(s[..n], s[n..]);
    FromLEBound(s[..n]);
    DivModUnique(FromLE(s), Pow256(n), FromLE(s[n..]), FromLE(s[..n]));
  }

  /** Overwriting the first n bytes replaces the low n bytes of the number and keeps the high ones. */
  lemma LEOverwrite(s: seq<byte>, v: nat, n: nat)
    requires n <= |s|
    ensures FromLE(ToLE(v, n) + s[n..]) == v % Pow256(n) + Pow256(n) * (FromLE(s) / Pow256(n))
  {
    FromLEAppend(ToLE(v, n), s[n..]);
    LERoundTrip(v, n);
    LESplit(s, n);
  }

  /** Truncating to a wider byte count first does not change the low n bytes. */
  lemma {:induction false} ToLETruncate(v: nat, n: nat, k: nat)
    requires n <= k
    ensures ToLE(v % Pow256(k), n) == ToLE(v, n)
  {
    if n == 0 {
    } else {
      PeelByte(v, Pow256(k - 1));
      ToLETruncate(v / 256, n - 1, k - 1);
    }
  }

  lemma {:induction false} ToLEPrefix(v: nat, n: nat, k: nat)
    requires n <= k
    ensures ToLE(v, k)[..n] == ToLE(v, n)
  {
    if n == 0 {
    } else {
      ToLEPrefix(v / 256, n - 1, k - 1);
      assert ToLE(v, k)[..n] == [v % 256] + ToLE(v / 256, k - 1)[..n - 1];
    }
  }

  lemma {:induction false} FromLEZeros(z: seq<byte>)
    requires forall i :: 0 <= i < |z| ==> z[i] == 0
    ensures FromLE(z) == 0
  {
    if z == [] {
    } else {
      FromLEZeros(z[1..]);
    }
  }
}
