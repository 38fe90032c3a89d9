/**
 * The per-type field codecs of include/RM_Types.h.  A field is an `RMType`: a
 * codec, a 16-bit byte offset into the record buffer and an 8-bit byte size.
 * Every operation touches only the bytes [offset, offset + size) of the
 * buffer it writes.
 *
 * `RM_Numeric<NT>` stores an unsigned integer of sizeof(NT) bytes in host
 * (little-endian) order and wraps modulo 2^(8 * size) like C++ unsigned
 * arithmetic.  `RM_HEXSTRING` is a fixed-width byte string compared
 * lexicographically and incremented as a big-endian number.
 */
module FieldTypes {
  import opened Bytes

  /** The concrete RM_Type subclass: an unsigned integer or a hex string. */
  datatype Codec = Numeric | HexString

  /** One field: its codec, its byte offset and its byte size. */
  datatype RMType = RMType(codec: Codec, offset: nat, size: nat)

  /** The widths the header gives its fields: uint16 offset, uint8 size, and sizeof(NT) for integers. */
  predicate ValidType(t: RMType)
  {
    && t.offset <= 0xFFFF
    && t.size <= 0xFF
    && (t.codec.Numeric? ==> t.size == 1 || t.size == 2 || t.size == 4 || t.size == 8)
  }

  /** The field lies inside a buffer of `len` bytes. */
  predicate FitsIn(t: RMType, len: nat)
  {
    t.offset + t.size <= len
  }

  /** The bytes of the field inside a buffer (`element_ptr(data)` .. + size). */
  function Element(t: RMType, buf: seq<Byte>): seq<Byte>
    requires FitsIn(t, |buf|)
  {
    buf[t.offset .. t.offset + t.size]
  }

  /** The number an unsigned-integer field holds (`RM_Numeric::element`). */
  function NumValue(t: RMType, buf: seq<Byte>): nat
    requires FitsIn(t, |buf|)
  {
    LE(Element(t, buf))
  }

  /** Largest number the field can hold. */
  function MaxValue(t: RMType): nat
  {
    Pow256(t.size) - 1
  }

  /** `buf` with `bytes` written at `off`: the only change a field store makes. */
  function Overwrite(buf: seq<Byte>, off: nat, bytes: seq<Byte>): (r: seq<Byte>)
    requires off + |bytes| <= |buf|
  {
    buf[..off] + bytes + buf[off + |bytes|..]
  }

  /** Storing `bytes` at `off` and reading the field back gives `bytes`; nothing else moves. */
  lemma OverwriteReads(buf: seq<Byte>, off: nat, bytes: seq<Byte>)
    requires off + |bytes| <= |buf|
    ensures |Overwrite(buf, off, bytes)| == |buf|
    ensures Overwrite(buf, off, bytes)[off .. off + |bytes|] == bytes
    ensures forall k :: 0 <= k < |buf| && !(off <= k < off + |bytes|) ==> Overwrite(buf, off, bytes)[k] == buf[k]
  {
  }

  /**
   * The store through an element pointer (`element(a) = x`, `memcpy`,
   * `memset`): byte by byte, bytes [off, off + |bytes|) of `a` only.
   */
  method Store(a: array<Byte>, off: nat, bytes: seq<Byte>)
    requires off + |bytes| <= a.Length
    modifies a
    ensures a[..] == Overwrite(old(a[..]), off, bytes)
  {
    var i := 0;
    while i < |bytes|
      invariant 0 <= i <= |bytes|
      invariant forall k :: 0 <= k < a.Length ==>
        a[k] == (if off <= k < off + i then bytes[k - off] else old(a[k]))
    {
      a[off + i] := bytes[i];
      i := i + 1;
    }
    assert a[..] == Overwrite(old(a[..]), off, bytes);
  }

  // ---------------------------------------------------------------------
  // RM_Numeric<NT>
  // ---------------------------------------------------------------------

  /** `RM_Numeric::compare`: -1, 0 or 1 as the field of `a` is <, = or > that of `b`. */
  function NumericCompare(t: RMType, a: seq<Byte>, b: seq<Byte>): (r: int)
    requires FitsIn(t, |a|) && FitsIn(t, |b|)
  {
    if NumValue(t, a) < NumValue(t, b) then -1
    else if NumValue(t, a) > NumValue(t, b) then 1
    else 0
  }

  /**
   * The numeric order of two stored integers is the lexicographic order of
   * their bytes read from the most significant (last) byte down: the two
   * codecs order their bytes the same way once the byte order is accounted for.
   */
  lemma NumericCompareIsReversedByteOrder(t: RMType, a: seq<Byte>, b: seq<Byte>)
    requires FitsIn(t, |a|) && FitsIn(t, |b|)
    ensures NumericCompare(t, a, b) == LexCmp(Reverse(Element(t, a)), Reverse(Element(t, b)))
  {
    LEIsReversedBE(Element(t, a));
    LEIsReversedBE(Element(t, b));
    LexCmpIsBEOrder(Reverse(Element(t, a)), Reverse(Element(t, b)));
  }

  /** `RM_Numeric::between`: -1 below `l`, else 1 above `r`, else 0. */
  function NumericBetween(t: RMType, c: seq<Byte>, l: seq<Byte>, r: seq<Byte>): (res: int)
    requires FitsIn(t, |c|) && FitsIn(t, |l|) && FitsIn(t, |r|)
  {
    if NumValue(t, c) < NumValue(t, l) then -1
    else if NumValue(t, c) > NumValue(t, r) then 1
    else 0
  }

  /** `between` is the two comparisons against the bounds, the lower bound checked first. */
  lemma NumericBetweenByCompare(t: RMType, c: seq<Byte>, l: seq<Byte>, r: seq<Byte>)
    requires FitsIn(t, |c|) && FitsIn(t, |l|) && FitsIn(t, |r|)
    ensures NumericBetween(t, c, l, r) ==
      (if NumericCompare(t, c, l) < 0 then -1 else if NumericCompare(t, c, r) > 0 then 1 else 0)
    ensures NumericBetween(t, c, l, r) == 0 <==> NumValue(t, l) <= NumValue(t, c) <= NumValue(t, r)
  {
  }

  /** Unsigned addition in `n` bytes: the sum modulo 2^(8n), as C++ unsigned arithmetic wraps. */
  function WrapAdd(x: nat, y: nat, n: nat): (r: nat)
    ensures r < Pow256(n)
  {
    (x + y) % Pow256(n)
  }

  /** The buffer `a` after its field has been replaced by the field sum of `a` and `b`, modulo 2^(8 * size). */
  function AddResult(t: RMType, a: seq<Byte>, b: seq<Byte>): seq<Byte>
    requires FitsIn(t, |a|) && FitsIn(t, |b|)
  {
    Overwrite(a, t.offset, LEBytes(WrapAdd(NumValue(t, a), NumValue(t, b), t.size), t.size))
  }

  /** Adding changes only the field, and the field then holds the wrapped sum. */
  lemma AddResultValue(t: RMType, a: seq<Byte>, b: seq<Byte>)
    requires FitsIn(t, |a|) && FitsIn(t, |b|)
    ensures |AddResult(t, a, b)| == |a|
    ensures NumValue(t, AddResult(t, a, b)) == WrapAdd(NumValue(t, a), NumValue(t, b), t.size)
    ensures forall k :: 0 <= k < |a| && !(t.offset <= k < t.offset + t.size) ==> AddResult(t, a, b)[k] == a[k]
  {
    var sum := WrapAdd(NumValue(t, a), NumValue(t, b), t.size);
    OverwriteReads(a, t.offset, LEBytes(sum, t.size));
    LERoundTrip(sum, t.size);
  }

  /** `RM_Numeric::add`: a := a + b modulo 2^(8 * size); only a's field bytes change. */
  method NumericAdd(t: RMType, a: array<Byte>, b: array<Byte>)
    requires t.codec.Numeric? && FitsIn(t, a.Length) && FitsIn(t, b.Length)
    modifies a
    ensures a[..] == AddResult(t, old(a[..]), old(b[..]))
    ensures NumValue(t, a[..]) == WrapAdd(old(NumValue(t, a[..])), old(NumValue(t, b[..])), t.size)
    ensures forall k :: 0 <= k < a.Length && !(t.offset <= k < t.offset + t.size) ==> a[k] == old(a[k])
  {
    var sum := WrapAdd(NumValue(t, a[..]), NumValue(t, b[..]), t.size);
    Store(a, t.offset, LEBytes(sum, t.size));
    AddResultValue(t, old(a[..]), old(b[..]));
  }

  /** `RM_Numeric::inc`: ++element, wrapping to 0 past the maximum. */
  method NumericInc(t: RMType, a: array<Byte>)
    requires t.codec.Numeric? && FitsIn(t, a.Length)
    modifies a
    ensures NumValue(t, a[..]) == if old(NumValue(t, a[..])) < MaxValue(t) then old(NumValue(t, a[..])) + 1 else 0
    ensures forall k :: 0 <= k < a.Length && !(t.offset <= k < t.offset + t.size) ==> a[k] == old(a[k])
  {
    var x := NumValue(t, a[..]);
    var v := if x < MaxValue(t) then x + 1 else 0;
    var bytes := LEBytes(v, t.size);
    Store(a, t.offset, bytes);
    OverwriteReads(old(a[..]), t.offset, bytes);
    LERoundTrip(v, t.size);
  }

  /** `RM_Numeric::copy`: the field of `a` becomes that of `b`. */
  method NumericCopy(t: RMType, a: array<Byte>, b: array<Byte>)
    requires t.codec.Numeric? && FitsIn(t, a.Length) && FitsIn(t, b.Length)
    modifies a
    ensures Element(t, a[..]) == old(Element(t, b[..]))
    ensures forall k :: 0 <= k < a.Length && !(t.offset <= k < t.offset + t.size) ==> a[k] == old(a[k])
  {
    var bytes := Element(t, b[..]);
    Store(a, t.offset, bytes);
    OverwriteReads(old(a[..]), t.offset, bytes);
  }

  /** `RM_Numeric::set_min`: numeric_limits<NT>::min(), i.e. 0, stored as zero bytes. */
  method NumericSetMin(t: RMType, a: array<Byte>)
    requires t.codec.Numeric? && FitsIn(t, a.Length)
    modifies a
    ensures NumValue(t, a[..]) == 0
    ensures Element(t, a[..]) == Fill(t.size, 0)
    ensures forall k :: 0 <= k < a.Length && !(t.offset <= k < t.offset + t.size) ==> a[k] == old(a[k])
  {
    var bytes := LEBytes(0, t.size);
    Store(a, t.offset, bytes);
    OverwriteReads(old(a[..]), t.offset, bytes);
    LERoundTrip(0, t.size);
    LEBytesZero(t.size);
  }

  /** `RM_Numeric::set_max`: numeric_limits<NT>::max(), i.e. 2^(8 * size) - 1, stored as 0xFF bytes. */
  method NumericSetMax(t: RMType, a: array<Byte>)
    requires t.codec.Numeric? && FitsIn(t, a.Length)
    modifies a
    ensures NumValue(t, a[..]) == MaxValue(t)
    ensures Element(t, a[..]) == Fill(t.size, 255)
    ensures forall k :: 0 <= k < a.Length && !(t.offset <= k < t.offset + t.size) ==> a[k] == old(a[k])
  {
    var bytes := LEBytes(MaxValue(t), t.size);
    Store(a, t.offset, bytes);
    OverwriteReads(old(a[..]), t.offset, bytes);
    LERoundTrip(MaxValue(t), t.size);
    LEBytesMax(t.size);
  }

  // ---------------------------------------------------------------------
  // RM_HEXSTRING
  // ---------------------------------------------------------------------

  /**
   * `RM_HEXSTRING::inc`: from the last byte backwards, a byte below 0xFF is
   * incremented and the loop stops; a 0xFF byte becomes 0 and the carry moves on.
   */
  method HexInc(t: RMType, a: array<Byte>)
    requires t.codec.HexString? && FitsIn(t, a.Length)
    modifies a
    ensures Element(t, a[..]) == IncBE(old(Element(t, a[..])))
    ensures forall k :: 0 <= k < a.Length && !(t.offset <= k < t.offset + t.size) ==> a[k] == old(a[k])
  {
    ghost var s := Element(t, a[..]);
    var off := t.offset;
    var i: int := t.size - 1;
    while i >= 0
      invariant -1 <= i < t.size
      invariant forall k :: 0 <= k < a.Length && !(off <= k < off + t.size) ==> a[k] == old(a[k])
      invariant forall j :: off <= j <= off + i ==> a[j] == s[j - off]
      invariant forall j :: off + i < j < off + t.size ==> a[j] == 0
      invariant forall k :: i < k < t.size ==> s[k] == 255
    {
      if a[off + i] < 0xFF {
        a[off + i] := a[off + i] + 1;
        assert forall k :: 0 <= k < t.size ==> Element(t, a[..])[k] == a[off + k];
        CarryStoppedAt(s, Element(t, a[..]), i);
        return;
      }
      assert s[i] == 255;
      a[off + i] := 0;
      i := i - 1;
    }
    assert forall k :: 0 <= k < t.size ==> Element(t, a[..])[k] == a[off + k];
    CarryStoppedAt(s, Element(t, a[..]), i);
  }

  /**
   * The state `HexInc` leaves behind: bytes before i unchanged, byte i (if
   * any) one higher, every byte after i turned from 0xFF into 0.
   */
  lemma CarryStoppedAt(s: seq<Byte>, r: seq<Byte>, i: int)
    requires |s| == |r| && -1 <= i < |s|
    requires forall k :: 0 <= k < i ==> r[k] == s[k]
    requires i >= 0 ==> s[i] < 255 && r[i] == s[i] + 1
    requires forall k :: i < k < |s| ==> r[k] == 0 && s[k] == 255
    ensures r == IncBE(s)
  {
    if i >= 0 {
      IncBEStopsAt(s, i);
      assert r == s[..i] + [s[i] + 1] + Fill(|s| - i - 1, 0);
    } else {
      assert s == Fill(|s|, 255);
      IncBEAllOnes(|s|);
      assert r == Fill(|s|, 0);
    }
  }

  /** `RM_HEXSTRING::copy`: memcpy of the field's `size` bytes from `b` to `a`. */
  method HexCopy(t: RMType, a: array<Byte>, b: array<Byte>)
    requires t.codec.HexString? && FitsIn(t, a.Length) && FitsIn(t, b.Length)
    modifies a
    ensures Element(t, a[..]) == old(Element(t, b[..]))
    ensures forall k :: 0 <= k < a.Length && !(t.offset <= k < t.offset + t.size) ==> a[k] == old(a[k])
  {
    var bytes := Element(t, b[..]);
    Store(a, t.offset, bytes);
    OverwriteReads(old(a[..]), t.offset, bytes);
  }

  /** `RM_HEXSTRING::set_min`: memset 0x00 over the field. */
  method HexSetMin(t: RMType, a: array<Byte>)
    requires t.codec.HexString? && FitsIn(t, a.Length)
    modifies a
    ensures Element(t, a[..]) == Fill(t.size, 0)
    ensures BE(Element(t, a[..])) == 0
    ensures forall k :: 0 <= k < a.Length && !(t.offset <= k < t.offset + t.size) ==> a[k] == old(a[k])
  {
    Store(a, t.offset, Fill(t.size, 0));
    OverwriteReads(old(a[..]), t.offset, Fill(t.size, 0));
    FillBE(t.size, 0);
  }

  /** `RM_HEXSTRING::set_max`: memset 0xFF over the field. */
  method HexSetMax(t: RMType, a: array<Byte>)
    requires t.codec.HexString? && FitsIn(t, a.Length)
    modifies a
    ensures Element(t, a[..]) == Fill(t.size, 255)
    ensures BE(Element(t, a[..])) == Pow256(t.size) - 1
    ensures forall k :: 0 <= k < a.Length && !(t.offset <= k < t.offset + t.size) ==> a[k] == old(a[k])
  {
    Store(a, t.offset, Fill(t.size, 255));
    OverwriteReads(old(a[..]), t.offset, Fill(t.size, 255));
    FillBE(t.size, 255);
  }

  /** A filled field's big-endian value: 0 for zero bytes, the maximum for 0xFF bytes. */
  lemma {:induction false} FillBE(n: nat, b: Byte)
    requires b == 0 || b == 255
    ensures BE(Fill(n, b)) == if b == 0 then 0 else Pow256(n) - 1
  {
    if n > 0 {
      assert Fill(n, b)[..n - 1] == Fill(n - 1, b);
      FillBE(n - 1, b);
    }
  }

  /**
   * `RM_HEXSTRING::between`: the first loop returns -1 at the first byte
   * where c is below l (stopping at the first byte where it is above); the
   * second does the same against r with the roles swapped.
   */
  method HexBetween(t: RMType, c: seq<Byte>, l: seq<Byte>, r: seq<Byte>) returns (res: int)
    requires t.codec.HexString? && FitsIn(t, |c|) && FitsIn(t, |l|) && FitsIn(t, |r|)
    ensures res == -1 <==> LexLess(Element(t, c), Element(t, l))
    ensures res == 1 <==> !LexLess(Element(t, c), Element(t, l)) && LexLess(Element(t, r), Element(t, c))
    ensures res == 0 <==> !LexLess(Element(t, c), Element(t, l)) && !LexLess(Element(t, r), Element(t, c))
  {
    var cp, lp, rp := Element(t, c), Element(t, l), Element(t, r);
    LexCmpAntisymmetric(rp, cp);
    var k := 0;
    while k < t.size
      invariant 0 <= k <= t.size
      invariant forall j :: 0 <= j < k ==> cp[j] == lp[j]
    {
      if cp[k] < lp[k] {
        LexCmpAfterPrefix(cp, lp, k);
        return -1;
      }
      if cp[k] > lp[k] {
        LexCmpAfterPrefix(cp, lp, k);
        break;
      }
      k := k + 1;
    }
    if k == t.size {
      LexCmpAfterPrefix(cp, lp, k);
    }
    k := 0;
    while k < t.size
      invariant 0 <= k <= t.size
      invariant forall j :: 0 <= j < k ==> cp[j] == rp[j]
    {
      if cp[k] > rp[k] {
        LexCmpAfterPrefix(cp, rp, k);
        return 1;
      }
      if cp[k] < rp[k] {
        LexCmpAfterPrefix(cp, rp, k);
        break;
      }
      k := k + 1;
    }
    if k == t.size {
      LexCmpAfterPrefix(cp, rp, k);
    }
    return 0;
  }

  /**
   * `RM_HEXSTRING::compare` (comparing the field bytes `ap`/`bp`): the sign
   * of the first differing byte, which is the order of the big-endian values.
   */
  method HexCompare(t: RMType, a: seq<Byte>, b: seq<Byte>) returns (res: int)
    requires t.codec.HexString? && FitsIn(t, |a|) && FitsIn(t, |b|)
    ensures res == LexCmp(Element(t, a), Element(t, b))
    ensures res == Cmp3(BE(Element(t, a)), BE(Element(t, b)))
  {
    var ap, bp := Element(t, a), Element(t, b);
    LexCmpIsBEOrder(ap, bp);
    var i := 0;
    while i < t.size
      invariant 0 <= i <= t.size
      invariant forall j :: 0 <= j < i ==> ap[j] == bp[j]
    {
      if ap[i] < bp[i] {
        LexCmpAfterPrefix(ap, bp, i);
        return -1;
      }
      if ap[i] > bp[i] {
        LexCmpAfterPrefix(ap, bp, i);
        return 1;
      }
      i := i + 1;
    }
    LexCmpAfterPrefix(ap, bp, i);
    return 0;
  }
}
