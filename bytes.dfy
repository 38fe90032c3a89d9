/**
 * Byte buffers and the two ways the record store reads an unsigned number out
 * of them: little-endian (the in-memory layout of the C++ integer fields on the
 * x86 hosts the store runs on) and big-endian (the order in which hex-string
 * fields are compared and incremented).
 */
module Bytes {

  /** One octet of a record buffer or of a mapped file. */
  type Byte = b: int | 0 <= b < 256

  function Pow256(n: nat): (r: nat)
    ensures r > 0
  {
    if n == 0 then 1 else 256 * Pow256(n - 1)
  }

  /** `n` copies of the byte `b` (what `memset`/`bzero` leave behind). */
  function Fill(n: nat, b: Byte): (r: seq<Byte>)
    ensures |r| == n
  {
    seq(n, _ => b)
  }

  /** Three-way comparison of two numbers: -1, 0 or 1. */
  function Cmp3(x: int, y: int): int
  {
    if x < y then -1 else if x > y then 1 else 0
  }

  // ---------------------------------------------------------------------
  // Little-endian unsigned integers
  // ---------------------------------------------------------------------

  /** The unsigned integer a little-endian byte string stores. */
  function LE(s: seq<Byte>): (v: nat)
    ensures v < Pow256(|s|)
  {
    if |s| == 0 then 0 else s[0] + 256 * LE(s[1..])
  }

  /** The `n` little-endian bytes that store `v` modulo 2^(8n). */
  function LEBytes(v: nat, n: nat): (s: seq<Byte>)
    ensures |s| == n
  {
    if n == 0 then [] else [v % 256] + LEBytes(v / 256, n - 1)
  }

  /** Storing a number that fits and reading it back gives the number. */
  lemma {:induction false} LERoundTrip(v: nat, n: nat)
    requires v < Pow256(n)
    ensures LE(LEBytes(v, n)) == v
  {
    if n > 0 {
      LERoundTrip(v / 256, n - 1);
      assert LEBytes(v, n)[1..] == LEBytes(v / 256, n - 1);
    }
  }

  /** Reading a byte string and storing the value again gives the same bytes. */
  lemma {:induction false} LEBytesOfLE(s: seq<Byte>)
    ensures LEBytes(LE(s), |s|) == s
  {
    if |s| > 0 {
      LEBytesOfLE(s[1..]);
      assert LE(s) % 256 == s[0];
      assert LE(s) / 256 == LE(s[1..]);
    }
  }

  /** The minimum of an n-byte unsigned integer is stored as n zero bytes. */
  lemma {:induction false} LEBytesZero(n: nat)
    ensures LEBytes(0, n) == Fill(n, 0)
  {
    if n > 0 {
      LEBytesZero(n - 1);
    }
  }

  /** The maximum of an n-byte unsigned integer is stored as n bytes 0xFF. */
  lemma {:induction false} LEBytesMax(n: nat)
    ensures LEBytes(Pow256(n) - 1, n) == Fill(n, 255)
  {
    if n > 0 {
      var p := Pow256(n - 1);
      assert Pow256(n) - 1 == 256 * (p - 1) + 255;
      assert (Pow256(n) - 1) % 256 == 255;
      assert (Pow256(n) - 1) / 256 == p - 1;
      LEBytesMax(n - 1);
    }
  }

  // ---------------------------------------------------------------------
  // Big-endian byte strings and lexicographic order
  // ---------------------------------------------------------------------

  /** The unsigned integer a big-endian byte string stores. */
  function BE(s: seq<Byte>): (v: nat)
    ensures v < Pow256(|s|)
  {
    if |s| == 0 then 0 else 256 * BE(s[..|s| - 1]) + s[|s| - 1]
  }

  /** Lexicographic unsigned comparison of two byte strings of one length. */
  function LexCmp(a: seq<Byte>, b: seq<Byte>): (r: int)
    requires |a| == |b|
    ensures -1 <= r <= 1
  {
    if |a| == 0 then 0
    else if a[0] < b[0] then -1
    else if a[0] > b[0] then 1
    else LexCmp(a[1..], b[1..])
  }

  /** `a` comes strictly before `b` in lexicographic order. */
  predicate LexLess(a: seq<Byte>, b: seq<Byte>)
    requires |a| == |b|
  {
    LexCmp(a, b) == -1
  }

  lemma {:induction false} BEFront(s: seq<Byte>)
    requires |s| > 0
    ensures BE(s) == s[0] * Pow256(|s| - 1) + BE(s[1..])
  {
    var n := |s|;
    if n > 1 {
      var p := s[..n - 1];
      BEFront(p);
      assert s[1..][..n - 2] == p[1..];
      assert BE(s[1..]) == 256 * BE(p[1..]) + s[n - 1];
      assert p[0] == s[0];
      assert s[0] * Pow256(n - 1) == 256 * (s[0] * Pow256(n - 2));
    }
  }

  lemma MulMonotone(x: nat, y: nat, p: nat)
    requires x <= y
    ensures x * p <= y * p
  {
  }

  /** A smaller leading digit decides the order of two base-p numbers. */
  lemma DigitOrder(x: nat, y: nat, u: nat, v: nat, p: nat)
    requires x < y && u < p && v < p
    ensures x * p + u < y * p + v
  {
    MulMonotone(x + 1, y, p);
    assert (x + 1) * p == x * p + p;
  }

  /** Lexicographic order of equal-length byte strings is the order of their big-endian values. */
  lemma {:induction false} LexCmpIsBEOrder(a: seq<Byte>, b: seq<Byte>)
    requires |a| == |b|
    ensures LexCmp(a, b) == Cmp3(BE(a), BE(b))
  {
    if |a| > 0 {
      var p := Pow256(|a| - 1);
      BEFront(a);
      BEFront(b);
      if a[0] < b[0] {
        DigitOrder(a[0], b[0], BE(a[1..]), BE(b[1..]), p);
      } else if a[0] > b[0] {
        DigitOrder(b[0], a[0], BE(b[1..]), BE(a[1..]), p);
      } else {
        LexCmpIsBEOrder(a[1..], b[1..]);
      }
    }
  }

  /** LexCmp is 0 exactly on equal strings. */
  lemma {:induction false} LexCmpZeroIffEqual(a: seq<Byte>, b: seq<Byte>)
    requires |a| == |b|
    ensures LexCmp(a, b) == 0 <==> a == b
  {
    if |a| > 0 {
      LexCmpZeroIffEqual(a[1..], b[1..]);
      if a[0] == b[0] && a[1..] == b[1..] {
        assert a == [a[0]] + a[1..] && b == [b[0]] + b[1..];
      }
    }
  }

  /** LexCmp is antisymmetric. */
  lemma {:induction false} LexCmpAntisymmetric(a: seq<Byte>, b: seq<Byte>)
    requires |a| == |b|
    ensures LexCmp(a, b) == -LexCmp(b, a)
  {
    if |a| > 0 {
      LexCmpAntisymmetric(a[1..], b[1..]);
    }
  }

  /** The bytes of `s` in the opposite order. */
  function Reverse(s: seq<Byte>): (r: seq<Byte>)
    ensures |r| == |s|
  {
    if |s| == 0 then [] else Reverse(s[1..]) + [s[0]]
  }

  /** A little-endian number is the big-endian reading of its reversed bytes. */
  lemma {:induction false} LEIsReversedBE(s: seq<Byte>)
    ensures LE(s) == BE(Reverse(s))
  {
    if |s| > 0 {
      LEIsReversedBE(s[1..]);
      assert Reverse(s)[..|s| - 1] == Reverse(s[1..]);
    }
  }

  /** Comparing at the first difference: a common prefix does not change the verdict. */
  lemma {:induction false} LexCmpAfterPrefix(a: seq<Byte>, b: seq<Byte>, k: nat)
    requires |a| == |b| && k <= |a|
    requires forall j :: 0 <= j < k ==> a[j] == b[j]
    ensures LexCmp(a, b) == LexCmp(a[k..], b[k..])
  {
    if k > 0 {
      LexCmpAfterPrefix(a[1..], b[1..], k - 1);
      assert a[1..][k - 1..] == a[k..];
      assert b[1..][k - 1..] == b[k..];
    }
  }

  // ---------------------------------------------------------------------
  // Big-endian increment with carry
  // ---------------------------------------------------------------------

  /** Increment a big-endian byte string by one, carrying from the last byte forwards. */
  function IncBE(s: seq<Byte>): (r: seq<Byte>)
    ensures |r| == |s|
  {
    if |s| == 0 then []
    else if s[|s| - 1] < 255 then s[..|s| - 1] + [s[|s| - 1] + 1]
    else IncBE(s[..|s| - 1]) + [0]
  }

  /** IncBE adds one to the big-endian value, wrapping to zero when the sum does not fit. */
  lemma {:induction false} IncBEValue(s: seq<Byte>)
    ensures BE(IncBE(s)) == if BE(s) + 1 < Pow256(|s|) then BE(s) + 1 else 0
  {
    var n := |s|;
    if n > 0 {
      var p := s[..n - 1];
      var r := IncBE(s);
      assert r[..n - 1] == (if s[n - 1] < 255 then p else IncBE(p));
      if s[n - 1] < 255 {
        assert BE(r) == 256 * BE(p) + s[n - 1] + 1;
      } else {
        IncBEValue(p);
        assert BE(r) == 256 * BE(IncBE(p));
      }
    }
  }

  /** A field of all 0xFF bytes wraps to all zero bytes. */
  lemma {:induction false} IncBEAllOnes(n: nat)
    ensures IncBE(Fill(n, 255)) == Fill(n, 0)
  {
    if n > 0 {
      assert Fill(n, 255)[..n - 1] == Fill(n - 1, 255);
      IncBEAllOnes(n - 1);
    }
  }

  /** Where the carry stops at byte i, IncBE bumps byte i and zeroes every byte after it. */
  lemma {:induction false} IncBEStopsAt(s: seq<Byte>, i: nat)
    requires i < |s| && s[i] < 255
    requires forall k :: i < k < |s| ==> s[k] == 255
    ensures IncBE(s) == s[..i] + [s[i] + 1] + Fill(|s| - i - 1, 0)
  {
    var n := |s|;
    if i < n - 1 {
      IncBEStopsAt(s[..n - 1], i);
      assert s[..n - 1][..i] == s[..i];
      assert Fill(n - i - 1, 0) == Fill(n - i - 2, 0) + [0];
    } else {
      assert s[..n - 1] == s[..i];
    }
  }
}
