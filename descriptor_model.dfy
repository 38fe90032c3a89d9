/**
 * The descriptor-based record model of include/RecordModel.h.  A field is
 * described by one 32-bit word: the byte offset in the high 16 bits, the type
 * code in the low 16 bits, whose low 8 bits are the byte size.  A model holds
 * two zero-terminated descriptor lists (keys and values); an instance is a
 * model tag followed by `size` data bytes.
 */
module ModelDescriptors {
  import opened Bytes
  import opened FieldTypes

  const RMT_UINT32: nat := 0x0004
  const RMT_UINT64: nat := 0x0008
  const RMT_DOUBLE: nat := 0x0108

  /** `RecordModelOffset(u)`: u >> 16 on a 32-bit word. */
  function DescOffset(u: nat): nat
  {
    u / 0x1_0000
  }

  /** `RecordModelType(u)`: u & 0xFFFF. */
  function DescType(u: nat): nat
  {
    u % 0x1_0000
  }

  /** `RecordModelTypeSize(u)`: u & 0xFF. */
  function DescTypeSize(u: nat): nat
  {
    u % 0x100
  }

  /** The descriptor word `(offset << 16) | type` for a 16-bit type code. */
  function PackDescriptor(offset: nat, typ: nat): nat
  {
    offset * 0x1_0000 + typ
  }

  /** Decoding a packed descriptor gives back its offset and type, and the type's low byte as size. */
  lemma DescriptorRoundTrip(offset: nat, typ: nat)
    requires typ < 0x1_0000
    ensures DescOffset(PackDescriptor(offset, typ)) == offset
    ensures DescType(PackDescriptor(offset, typ)) == typ
    ensures DescTypeSize(PackDescriptor(offset, typ)) == typ % 0x100
  {
    HighLow(offset, typ);
    LowByte(offset * 0x100 + typ / 0x100, typ % 0x100);
  }

  /** Dividing `q * 2^16 + r` by 2^16 gives back q and r. */
  lemma HighLow(q: nat, r: nat)
    requires r < 0x1_0000
    ensures (q * 0x1_0000 + r) / 0x1_0000 == q && (q * 0x1_0000 + r) % 0x1_0000 == r
  {
  }

  /** The low byte of `q * 2^8 + r` is r. */
  lemma LowByte(q: nat, r: nat)
    requires r < 0x100
    ensures (q * 0x100 + r) % 0x100 == r
  {
  }

  /** The three type codes carry their byte size in their low byte: 4, 8 and 8. */
  lemma TypeCodeSizes(offset: nat)
    ensures DescTypeSize(PackDescriptor(offset, RMT_UINT32)) == 4
    ensures DescTypeSize(PackDescriptor(offset, RMT_UINT64)) == 8
    ensures DescTypeSize(PackDescriptor(offset, RMT_DOUBLE)) == 8
    ensures DescType(PackDescriptor(offset, RMT_DOUBLE)) != RMT_UINT64
  {
    DescriptorRoundTrip(offset, RMT_UINT32);
    DescriptorRoundTrip(offset, RMT_UINT64);
    DescriptorRoundTrip(offset, RMT_DOUBLE);
  }

  /** The field a descriptor names, read as an unsigned integer. */
  function DescField(u: nat): RMType
  {
    RMType(Numeric, DescOffset(u), DescTypeSize(u))
  }

  /** A descriptor of one of the two integer types (the other branches are `assert(false)` or floating point). */
  predicate IntegerDesc(u: nat)
  {
    DescType(u) == RMT_UINT32 || DescType(u) == RMT_UINT64
  }

  /** Position of the 0 terminator of a descriptor list. */
  function FirstZero(ds: seq<nat>): (n: nat)
    requires 0 in ds
    ensures n < |ds| && ds[n] == 0
    ensures forall j :: 0 <= j < n ==> ds[j] != 0
  {
    if ds[0] == 0 then 0 else 1 + FirstZero(ds[1..])
  }

  /** The descriptors before the terminator. */
  function Listed(ds: seq<nat>): seq<nat>
    requires 0 in ds
  {
    ds[..FirstZero(ds)]
  }

  /** Every descriptor in `ds` names a field inside `len` bytes. */
  predicate AllFit(ds: seq<nat>, len: nat)
  {
    forall j :: 0 <= j < |ds| ==> FitsIn(DescField(ds[j]), len)
  }

  /** Every descriptor in `ds` is an integer field inside `len` bytes. */
  predicate IntegerFields(ds: seq<nat>, len: nat)
  {
    forall j :: 0 <= j < |ds| ==> IntegerDesc(ds[j]) && FitsIn(DescField(ds[j]), len)
  }

  /** Two fields share no byte. */
  predicate Disjoint(s: RMType, t: RMType)
  {
    s.offset + s.size <= t.offset || t.offset + t.size <= s.offset
  }

  /** The fields of `ds` pairwise share no byte. */
  predicate PairwiseDisjoint(ds: seq<nat>)
  {
    forall i, j :: 0 <= i < j < |ds| ==> Disjoint(DescField(ds[i]), DescField(ds[j]))
  }

  // ---------------------------------------------------------------------
  // sum_instance
  // ---------------------------------------------------------------------

  /** `a` after adding, field by field in list order, the fields `ds` of `b` into it. */
  function SumFields(ds: seq<nat>, a: seq<Byte>, b: seq<Byte>): (r: seq<Byte>)
    requires AllFit(ds, |a|) && AllFit(ds, |b|)
    ensures |r| == |a|
  {
    if ds == [] then a
    else
      var prev := SumFields(ds[..|ds| - 1], a, b);
      AddResultValue(DescField(ds[|ds| - 1]), prev, b);
      AddResult(DescField(ds[|ds| - 1]), prev, b)
  }

  /** A list's descriptors before the terminator fit, one prefix at a time. */
  lemma PrefixFits(ds: seq<nat>, i: nat, len: nat)
    requires 0 in ds && IntegerFields(Listed(ds), len) && i < FirstZero(ds)
    ensures AllFit(ds[..i + 1], len)
  {
    assert forall j :: 0 <= j <= i ==> ds[..i + 1][j] == Listed(ds)[j];
  }

  /** Summing one more field of a list is one more `AddResult` step. */
  lemma SumFieldsStep(ds: seq<nat>, i: nat, a: seq<Byte>, b: seq<Byte>)
    requires i < |ds| && AllFit(ds[..i + 1], |a|) && AllFit(ds[..i + 1], |b|)
    ensures AllFit(ds[..i], |a|) && AllFit(ds[..i], |b|)
    ensures SumFields(ds[..i + 1], a, b) == AddResult(DescField(ds[i]), SumFields(ds[..i], a, b), b)
  {
    assert ds[..i + 1][..i] == ds[..i];
  }

  /** Bytes outside every summed field keep their value: key fields of ra are not touched. */
  lemma {:induction false} SumFieldsFrame(ds: seq<nat>, a: seq<Byte>, b: seq<Byte>, k: nat)
    requires AllFit(ds, |a|) && AllFit(ds, |b|) && k < |a|
    requires forall j :: 0 <= j < |ds| ==> !(DescOffset(ds[j]) <= k < DescOffset(ds[j]) + DescTypeSize(ds[j]))
    ensures SumFields(ds, a, b)[k] == a[k]
  {
    if ds != [] {
      var init := ds[..|ds| - 1];
      SumFieldsFrame(init, a, b, k);
      AddResultValue(DescField(ds[|ds| - 1]), SumFields(init, a, b), b);
    }
  }

  /** A field untouched by a write keeps its value. */
  lemma SameElementSameValue(t: RMType, x: seq<Byte>, y: seq<Byte>)
    requires FitsIn(t, |x|) && |x| == |y|
    requires forall k :: t.offset <= k < t.offset + t.size ==> x[k] == y[k]
    ensures NumValue(t, x) == NumValue(t, y)
  {
    assert Element(t, x) == Element(t, y);
  }

  /** Adding into one field leaves the value of a disjoint field as it was. */
  lemma AddKeepsDisjointField(t: RMType, u: RMType, a: seq<Byte>, b: seq<Byte>)
    requires FitsIn(t, |a|) && FitsIn(u, |a|) && FitsIn(u, |b|) && Disjoint(t, u)
    ensures NumValue(t, AddResult(u, a, b)) == NumValue(t, a)
  {
    AddResultValue(u, a, b);
    SameElementSameValue(t, AddResult(u, a, b), a);
  }

  /** Summing fields that are all disjoint from `t` leaves the value of `t` as it was. */
  lemma {:induction false} SumFieldsKeepsField(ds: seq<nat>, a: seq<Byte>, b: seq<Byte>, t: RMType)
    requires AllFit(ds, |a|) && AllFit(ds, |b|) && FitsIn(t, |a|)
    requires forall j :: 0 <= j < |ds| ==> Disjoint(t, DescField(ds[j]))
    ensures NumValue(t, SumFields(ds, a, b)) == NumValue(t, a)
  {
    if ds != [] {
      var init := ds[..|ds| - 1];
      SumFieldsKeepsField(init, a, b, t);
      AddKeepsDisjointField(t, DescField(ds[|ds| - 1]), SumFields(init, a, b), b);
    }
  }

  /**
   * When the value fields do not overlap, each of them ends up holding the
   * wrapped sum of its value in `a` and in `b`.
   */
  lemma {:induction false} SumFieldsValue(ds: seq<nat>, a: seq<Byte>, b: seq<Byte>, i: nat)
    requires AllFit(ds, |a|) && AllFit(ds, |b|) && PairwiseDisjoint(ds) && i < |ds|
    ensures NumValue(DescField(ds[i]), SumFields(ds, a, b)) ==
      WrapAdd(NumValue(DescField(ds[i]), a), NumValue(DescField(ds[i]), b), DescTypeSize(ds[i]))
  {
    var n := |ds| - 1;
    var init := ds[..n];
    var prev := SumFields(init, a, b);
    var t := DescField(ds[i]);
    if i == n {
      forall j | 0 <= j < n
        ensures Disjoint(t, DescField(init[j]))
      {
        assert Disjoint(DescField(ds[j]), DescField(ds[n]));
      }
      SumFieldsKeepsField(init, a, b, t);
      AddResultValue(t, prev, b);
    } else {
      assert PairwiseDisjoint(init);
      SumFieldsValue(init, a, b, i);
      AddKeepsDisjointField(t, DescField(ds[n]), prev, b);
    }
  }

  // ---------------------------------------------------------------------
  // compare_keys
  // ---------------------------------------------------------------------

  /** The order `compare_keys` defines: the sign of the first key field whose values differ, else 0. */
  function KeyOrder(ds: seq<nat>, a: seq<Byte>, b: seq<Byte>): (r: int)
    requires AllFit(ds, |a|) && AllFit(ds, |b|)
    ensures -1 <= r <= 1
  {
    if ds == [] then 0
    else
      var c := NumericCompare(DescField(ds[0]), a, b);
      if c != 0 then c else KeyOrder(ds[1..], a, b)
  }

  /** Swapping the buffers flips the verdict. */
  lemma {:induction false} KeyOrderAntisymmetric(ds: seq<nat>, a: seq<Byte>, b: seq<Byte>)
    requires AllFit(ds, |a|) && AllFit(ds, |b|)
    ensures KeyOrder(ds, a, b) == -KeyOrder(ds, b, a)
  {
    if ds != [] {
      KeyOrderAntisymmetric(ds[1..], a, b);
    }
  }

  /** The verdict is 0 exactly when every key field holds the same number in both buffers. */
  lemma {:induction false} KeyOrderZeroIff(ds: seq<nat>, a: seq<Byte>, b: seq<Byte>)
    requires AllFit(ds, |a|) && AllFit(ds, |b|)
    ensures KeyOrder(ds, a, b) == 0 <==>
      forall i :: 0 <= i < |ds| ==> NumValue(DescField(ds[i]), a) == NumValue(DescField(ds[i]), b)
  {
    if ds != [] {
      KeyOrderZeroIff(ds[1..], a, b);
      assert forall i :: 1 <= i < |ds| ==> ds[i] == ds[1..][i - 1];
    }
  }

  /** The order is transitive, so a batch can be sorted by it. */
  lemma {:induction false} KeyOrderTransitive(ds: seq<nat>, a: seq<Byte>, b: seq<Byte>, c: seq<Byte>)
    requires AllFit(ds, |a|) && AllFit(ds, |b|) && AllFit(ds, |c|)
    requires KeyOrder(ds, a, b) <= 0 && KeyOrder(ds, b, c) <= 0
    ensures KeyOrder(ds, a, c) <= 0
    ensures KeyOrder(ds, a, b) < 0 || KeyOrder(ds, b, c) < 0 ==> KeyOrder(ds, a, c) < 0
  {
    if ds != [] {
      var f := DescField(ds[0]);
      if NumValue(f, a) == NumValue(f, b) == NumValue(f, c) {
        KeyOrderTransitive(ds[1..], a, b, c);
      }
    }
  }

  // ---------------------------------------------------------------------
  // RecordModel and its instances
  // ---------------------------------------------------------------------

  /** A `RecordModelInstance`: the owning model, then `size` bytes of record data. */
  class Instance {
    const model: RecordModel
    const data: array<Byte>

    constructor(model: RecordModel, data: array<Byte>)
      ensures this.model == model && this.data == data
    {
      this.model := model;
      this.data := data;
    }
  }

  class RecordModel {
    const size: nat
    const keysize: nat
    /** Key descriptors, terminated by 0. */
    const keys: seq<nat>
    /** Value descriptors, terminated by 0. */
    const values: seq<nat>

    constructor(size: nat, keysize: nat, keys: seq<nat>, values: seq<nat>)
      ensures this.size == size && this.keysize == keysize
      ensures this.keys == keys && this.values == values
    {
      this.size := size;
      this.keysize := keysize;
      this.keys := keys;
      this.values := values;
    }

    /**
     * `create_instance`: a new record of `size` zero bytes tagged with this
     * model, or null when the allocation (the `allocates` outcome) fails.
     */
    method CreateInstance(allocates: bool) returns (mi: Instance?)
      ensures mi == null <==> !allocates
      ensures mi != null ==> fresh(mi) && fresh(mi.data) && mi.model == this && mi.data[..] == Fill(size, 0)
    {
      if !allocates {
        return null;
      }
      var data := new Byte[size](_ => 0);
      mi := new Instance(this, data);
    }

    /** `zero_instance`: the data bytes become zero; the model tag stays; null is ignored. */
    method ZeroInstance(mi: Instance?)
      requires mi != null ==> mi.data.Length == size
      modifies if mi != null then {mi.data} else {}
      ensures mi != null ==> mi.data[..] == Fill(size, 0)
    {
      if mi != null {
        var i := 0;
        while i < size
          invariant 0 <= i <= size
          invariant forall k :: 0 <= k < i ==> mi.data[k] == 0
        {
          mi.data[i] := 0;
          i := i + 1;
        }
        assert mi.data[..] == Fill(size, 0);
      }
    }

    /**
     * `sum_instance`: ra := ra + rb over the value fields, in list order.
     * Both records belong to this model and every value field is an integer.
     */
    method SumInstance(ra: Instance, rb: Instance)
      requires ra.model == this && rb.model == this
      requires ra.data.Length == size && rb.data.Length == size && ra.data != rb.data
      requires 0 in values
      requires IntegerFields(Listed(values), size)
      modifies ra.data
      ensures ra.data[..] == SumFields(Listed(values), old(ra.data[..]), rb.data[..])
    {
      var n := FirstZero(values);
      ghost var a0, b0 := ra.data[..], rb.data[..];
      var i := 0;
      while values[i] != 0
        invariant 0 <= i <= n
        invariant rb.data[..] == b0 && AllFit(values[..i], size)
        invariant ra.data[..] == SumFields(values[..i], a0, b0)
        decreases n - i
      {
        var desc := values[i];
        PrefixFits(values, i, size);
        SumFieldsStep(values, i, a0, b0);
        ghost var before := ra.data[..];
        NumericAdd(DescField(desc), ra.data, rb.data);
        assert ra.data[..] == AddResult(DescField(desc), before, b0);
        i := i + 1;
      }
      assert i == n;
    }

    /**
     * `compare_keys`: scans the key descriptors up to the terminator and
     * returns the sign of the first key field that differs, or 0.
     */
    method CompareKeys(akbuf: seq<Byte>, bkbuf: seq<Byte>) returns (r: int)
      requires |akbuf| == |bkbuf| == keysize
      requires 0 in keys
      requires IntegerFields(Listed(keys), size) && AllFit(Listed(keys), keysize)
      ensures r == KeyOrder(Listed(keys), akbuf, bkbuf)
    {
      var ks := Listed(keys);
      var k := 0;
      while keys[k] != 0
        invariant 0 <= k <= FirstZero(keys)
        decreases FirstZero(keys) - k
        invariant KeyOrder(ks, akbuf, bkbuf) == KeyOrder(ks[k..], akbuf, bkbuf)
      {
        var desc := keys[k];
        assert ks[k..][0] == desc && ks[k..][1..] == ks[k + 1..];
        var t := RMType(Numeric, DescOffset(desc), DescTypeSize(desc));
        var a := NumValue(t, akbuf);
        var b := NumValue(t, bkbuf);
        if a != b {
          return if a < b then -1 else 1;
        }
        k := k + 1;
      }
      return 0;
    }
  }
}
