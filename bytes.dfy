/** Octet strings as the endpoint code sees its C objects: memcpy, memcmp and
    the numeric value of a field in network or host byte order. */
module Bytes {

  /** One octet of a C object's representation. */
  type byte = b: int | 0 <= b < 256

  /** n zero bytes, as memset(p, 0, n) leaves them. */
  function Zeros(n: nat): (z: seq<byte>)
    ensures |z| == n
    ensures forall i :: 0 <= i < n ==> z[i] == 0
  {
    seq(n, _ => 0)
  }

  /** The bytes of s after memcpy(s + at, src, |src|): the window starting at
      `at` holds src, every other byte is the one s had. */
  function Splice(s: seq<byte>, at: nat, src: seq<byte>): (r: seq<byte>)
    requires at + |src| <= |s|
    ensures |r| == |s|
    ensures forall i :: 0 <= i < |s| ==> r[i] == if at <= i < at + |src| then src[i - at] else s[i]
  {
    s[..at] + src + s[at + |src|..]
  }

  /** memcpy(dst + at, src, |src|) on an array. */
  method CopyInto(dst: array<byte>, at: nat, src: seq<byte>)
    requires at + |src| <= dst.Length
    modifies dst
    ensures dst[..] == Splice(old(dst[..]), at, src)
  {
    for k := 0 to |src|
      invariant forall i :: 0 <= i < dst.Length ==>
        dst[i] == if at <= i < at + k then src[i - at] else old(dst[i])
    {
      dst[at + k] := src[k];
    }
  }

  /** memcmp(a, b, |a|): the first differing byte, compared as unsigned char,
      decides; equal strings compare 0. Only the sign is meaningful in C, and
      this model gives -1, 0 or 1. */
  function MemCmp(a: seq<byte>, b: seq<byte>): (r: int)
    requires |a| == |b|
    ensures -1 <= r <= 1
  {
    if |a| == 0 then 0
    else if a[0] < b[0] then -1
    else if a[0] > b[0] then 1
    else MemCmp(a[1..], b[1..])
  }

  /** memcmp is zero exactly on identical byte strings. */
  lemma {:induction false} MemCmpZeroIff(a: seq<byte>, b: seq<byte>)
    requires |a| == |b|
    ensures MemCmp(a, b) == 0 <==> a == b
  {
    if |a| > 0 {
      MemCmpZeroIff(a[1..], b[1..]);
      if a[0] == b[0] && a[1..] == b[1..] {
        assert a == [a[0]] + a[1..] && b == [b[0]] + b[1..];
      }
    }
  }

  /** Swapping the arguments of memcmp flips the sign. */
  lemma {:induction false} MemCmpAntisymmetric(a: seq<byte>, b: seq<byte>)
    requires |a| == |b|
    ensures MemCmp(b, a) == -MemCmp(a, b)
  {
    if |a| > 0 && a[0] == b[0] {
      MemCmpAntisymmetric(a[1..], b[1..]);
    }
  }

  /** memcmp orders byte strings transitively. */
  lemma {:induction false} MemCmpTransitive(a: seq<byte>, b: seq<byte>, c: seq<byte>)
    requires |a| == |b| == |c|
    ensures MemCmp(a, b) < 0 && MemCmp(b, c) < 0 ==> MemCmp(a, c) < 0
    ensures MemCmp(a, b) <= 0 && MemCmp(b, c) <= 0 ==> MemCmp(a, c) <= 0
  {
    if |a| > 0 && a[0] == b[0] == c[0] {
      MemCmpTransitive(a[1..], b[1..], c[1..]);
    }
  }

  /** A shared prefix followed by a smaller byte makes memcmp negative. */
  lemma {:induction false} MemCmpBefore(a: seq<byte>, b: seq<byte>, k: nat)
    requires |a| == |b| && k < |a|
    requires a[..k] == b[..k] && a[k] < b[k]
    ensures MemCmp(a, b) == -1
  {
    if k > 0 {
      assert a[0] == a[..k][0] && b[0] == b[..k][0];
      assert a[1..][..k - 1] == a[..k][1..] && b[1..][..k - 1] == b[..k][1..];
      MemCmpBefore(a[1..], b[1..], k - 1);
    }
  }

  /** A negative memcmp has a witness: the first differing byte. */
  lemma {:induction false} MemCmpWitness(a: seq<byte>, b: seq<byte>)
    requires |a| == |b| && MemCmp(a, b) < 0
    ensures exists k :: 0 <= k < |a| && a[..k] == b[..k] && a[k] < b[k]
  {
    if a[0] < b[0] {
      assert a[..0] == b[..0];
    } else {
      MemCmpWitness(a[1..], b[1..]);
      var k :| 0 <= k < |a| - 1 && a[1..][..k] == b[1..][..k] && a[1..][k] < b[1..][k];
      assert a[..k + 1] == [a[0]] + a[1..][..k];
      assert b[..k + 1] == [b[0]] + b[1..][..k];
    }
  }

  /** memcmp is lexicographic order: a sorts before b exactly when they share
      a prefix and then a has the smaller byte. */
  lemma MemCmpLexicographic(a: seq<byte>, b: seq<byte>)
    requires |a| == |b|
    ensures MemCmp(a, b) < 0 <==> exists k :: 0 <= k < |a| && a[..k] == b[..k] && a[k] < b[k]
  {
    if MemCmp(a, b) < 0 {
      MemCmpWitness(a, b);
    } else if exists k :: 0 <= k < |a| && a[..k] == b[..k] && a[k] < b[k] {
      var k :| 0 <= k < |a| && a[..k] == b[..k] && a[k] < b[k];
      MemCmpBefore(a, b, k);
      assert false;
    }
  }

  /** 256 to the n: the number of values an n-byte field can hold. */
  function Pow256(n: nat): (p: nat)
    ensures p > 0
  {
    if n == 0 then 1 else 256 * Pow256(n - 1)
  }

  /** 2 to the n. */
  function Pow2(n: nat): (p: nat)
    ensures p > 0
  {
    if n == 0 then 1 else 2 * Pow2(n - 1)
  }

  /** Eight more bits multiply the range by 256. */
  lemma Pow2Step8(k: nat)
    ensures Pow2(k + 8) == 256 * Pow2(k)
  {
    assert Pow2(k + 8) == 2 * Pow2(k + 7) == 4 * Pow2(k + 6) == 8 * Pow2(k + 5);
    assert Pow2(k + 5) == 2 * Pow2(k + 4) == 4 * Pow2(k + 3);
    assert Pow2(k + 3) == 2 * Pow2(k + 2) == 4 * Pow2(k + 1) == 8 * Pow2(k);
  }

  /** One byte is eight bits. */
  lemma {:induction false} Pow2OfBytes(n: nat)
    ensures Pow2(8 * n) == Pow256(n)
  {
    if n > 0 {
      Pow2OfBytes(n - 1);
      Pow2Step8(8 * (n - 1));
    }
  }

  /** Multiplication by a natural number is monotonic. */
  lemma MulMono(a: nat, b: nat, p: nat)
    requires a <= b
    ensures a * p <= b * p
  {
    assert b * p == a * p + (b - a) * p;
  }

  /** The value of a field stored most significant byte first (network byte
      order, as ntohl reads it). */
  function BigEndian(s: seq<byte>): (v: nat)
    ensures v < Pow256(|s|)
  {
    if s == [] then 0
    else
      var p := Pow256(|s| - 1);
      MulMono(s[0], 255, p);
      s[0] * p + BigEndian(s[1..])
  }

  /** A network-order value is zero exactly when every byte is zero. */
  lemma {:induction false} BigEndianZeroIff(s: seq<byte>)
    ensures BigEndian(s) == 0 <==> s == Zeros(|s|)
  {
    if s != [] {
      BigEndianZeroIff(s[1..]);
      var p := Pow256(|s| - 1);
      if s[0] > 0 {
        MulMono(1, s[0], p);
      } else if s[1..] == Zeros(|s| - 1) {
        assert s == [0] + Zeros(|s| - 1);
      }
    }
  }

  /** A larger multiplier gives at least one more multiple. */
  lemma MulStep(a: nat, b: nat, p: nat)
    requires a < b
    ensures a * p + p <= b * p
  {
    MulMono(a + 1, b, p);
    assert (a + 1) * p == a * p + p;
  }

  /** q * p + r with r < p lies in slice b of width p exactly when q == b. */
  lemma SliceOf(q: nat, r: nat, p: nat, b: nat)
    requires r < p
    ensures b * p <= q * p + r < b * p + p <==> q == b
  {
    if q < b {
      MulStep(q, b, p);
    } else if q > b {
      MulStep(b, q, p);
    }
  }

  /** The leading byte of a network-order field picks which of the 256 equal
      slices of the value range the field's value falls into. */
  lemma LeadingByteSlice(s: seq<byte>, b: byte)
    requires |s| > 0
    ensures var p := Pow256(|s| - 1); b * p <= BigEndian(s) < b * p + p <==> s[0] == b
  {
    SliceOf(s[0], BigEndian(s[1..]), Pow256(|s| - 1), b);
  }

  /** The value of a field stored least significant byte first (host byte
      order on a little-endian machine). */
  function LittleEndian(s: seq<byte>): (v: nat)
    ensures v < Pow256(|s|)
  {
    if s == [] then 0
    else
      var rest := LittleEndian(s[1..]);
      assert 256 * rest <= 256 * (Pow256(|s| - 1) - 1);
      s[0] + 256 * rest
  }

  /** The two's-complement reading of an unsigned n-byte value: values in the
      upper half of the range stand for negative numbers. */
  function Signed(v: nat, n: nat): (x: int)
    requires v < Pow256(n)
    ensures -(Pow256(n) as int) <= 2 * x < Pow256(n)
    ensures x == v || x == v - Pow256(n)
  {
    if 2 * v < Pow256(n) then v else v - Pow256(n)
  }
}
