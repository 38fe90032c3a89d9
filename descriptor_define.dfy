/**
 * `RecordModel.define` of src/RecordModel.rb: the builder collects key and
 * value declarations `[id, type]`; `define` then walks the keys and then the
 * values with one running byte offset, packing each field into a descriptor
 * `(offset << 16) | TYPES[type]` and recording it under its id.
 */
module DescriptorSchema {
  import opened Wrappers
  import opened ModelDescriptors

  /** A Ruby symbol, by its name. */
  type Symbol = string

  /** One `key`/`val` declaration: the field id and its type symbol. */
  type Decl = (Symbol, Symbol)

  /** The type table: only `:uint64` (code 0x0008) is enabled. */
  const TYPES: map<Symbol, nat> := map["uint64" := RMT_UINT64]

  /** What `define` computes before building the class: the two descriptor lists and the id table. */
  datatype Layout = Layout(keys: seq<nat>, values: seq<nat>, byId: map<Symbol, nat>)

  /** Every declared type is in the table. */
  predicate AllKnown(fs: seq<Decl>)
  {
    forall i :: 0 <= i < |fs| ==> fs[i].1 in TYPES
  }

  /** The byte size of a type: the low byte of its code. */
  function TypeSize(typ: Symbol): nat
    requires typ in TYPES
  {
    TYPES[typ] % 0x100
  }

  /** The running offset after laying out `fs` from `start`. */
  function End(fs: seq<Decl>, start: nat): nat
    requires AllKnown(fs)
  {
    if fs == [] then start
    else End(fs[..|fs| - 1], start) + TypeSize(fs[|fs| - 1].1)
  }

  /** The descriptors of `fs` laid out contiguously from `start`. */
  function Descs(fs: seq<Decl>, start: nat): (ds: seq<nat>)
    requires AllKnown(fs)
    ensures |ds| == |fs|
  {
    if fs == [] then []
    else
      var init := fs[..|fs| - 1];
      Descs(init, start) + [PackDescriptor(End(init, start), TYPES[fs[|fs| - 1].1])]
  }

  /** The id table `h` after `h[id] = desc` for each field in order: a later id overrides an earlier one. */
  function Assign(h: map<Symbol, nat>, fs: seq<Decl>, ds: seq<nat>): map<Symbol, nat>
    requires |fs| == |ds|
  {
    if fs == [] then h
    else Assign(h, fs[..|fs| - 1], ds[..|ds| - 1])[fs[|fs| - 1].0 := ds[|ds| - 1]]
  }

  /**
   * One `map` block of `define`: packs each field at the running offset,
   * records it in `h` and advances the offset by the field's size.
   */
  method PackFields(fs: seq<Decl>, start: nat, h0: map<Symbol, nat>)
    returns (r: Result<(seq<nat>, nat, map<Symbol, nat>)>)
    ensures r.Ok? <==> AllKnown(fs)
    ensures r.Err? ==> r.error == TypeError
    ensures r.Ok? ==> r.value == (Descs(fs, start), End(fs, start), Assign(h0, fs, Descs(fs, start)))
  {
    var offset := start;
    var h := h0;
    var ds: seq<nat> := [];
    var i := 0;
    while i < |fs|
      invariant 0 <= i <= |fs| && AllKnown(fs[..i])
      invariant ds == Descs(fs[..i], start) && offset == End(fs[..i], start)
      invariant h == Assign(h0, fs[..i], ds)
    {
      var (id, typ) := fs[i];
      if typ !in TYPES {
        return Err(TypeError);
      }
      assert fs[..i + 1][..i] == fs[..i];
      var desc := PackDescriptor(offset, TYPES[typ]);
      h := h[id := desc];
      offset := offset + TYPES[typ] % 0x100;
      ds := ds + [desc];
      i := i + 1;
    }
    assert fs[..i] == fs;
    return Ok((ds, offset, h));
  }

  /**
   * `RecordModel.define`: keys, then values, from offset 0.  Ok exactly when
   * every type is in the table (a missing entry is `nil`, and
   * `(offset << 16) | nil` raises TypeError).
   */
  method Define(keys: seq<Decl>, values: seq<Decl>) returns (r: Result<Layout>)
    ensures r.Ok? <==> AllKnown(keys) && AllKnown(values)
    ensures r.Err? ==> r.error == TypeError
    ensures r.Ok? ==> r.value == Layout(Descs(keys, 0), Descs(values, End(keys, 0)),
      Assign(Assign(map[], keys, Descs(keys, 0)), values, Descs(values, End(keys, 0))))
  {
    var k := PackFields(keys, 0, map[]);
    if k.Err? {
      return Err(k.error);
    }
    var (kd, offset, h) := k.value;
    var v := PackFields(values, offset, h);
    if v.Err? {
      return Err(v.error);
    }
    var (vd, _, h') := v.value;
    return Ok(Layout(kd, vd, h'));
  }

  // ---------------------------------------------------------------------
  // Properties of the layout
  // ---------------------------------------------------------------------

  /** Only `:uint64` is accepted, and it is 8 bytes wide. */
  lemma OnlyUint64(typ: Symbol)
    ensures typ in TYPES <==> typ == "uint64"
    ensures typ in TYPES ==> TypeSize(typ) == 8
  {
  }

  /** With every field 8 bytes wide, the offset advances by 8 per field. */
  lemma {:induction false} EndIsEightPerField(fs: seq<Decl>, start: nat)
    requires AllKnown(fs)
    ensures End(fs, start) == start + 8 * |fs|
  {
    if fs != [] {
      var init := fs[..|fs| - 1];
      assert AllKnown(init);
      EndIsEightPerField(init, start);
      OnlyUint64(fs[|fs| - 1].1);
    }
  }

  /**
   * Decoding the i-th descriptor with the header macros gives back the offset
   * where the layout put it (the running offset after fields 0..i-1) and the
   * type code of its declaration.
   */
  lemma {:induction false} DescsDecode(fs: seq<Decl>, start: nat, i: nat)
    requires AllKnown(fs) && i < |fs|
    ensures AllKnown(fs[..i])
    ensures DescOffset(Descs(fs, start)[i]) == End(fs[..i], start)
    ensures DescType(Descs(fs, start)[i]) == TYPES[fs[i].1]
    ensures DescTypeSize(Descs(fs, start)[i]) == TypeSize(fs[i].1)
  {
    var n := |fs| - 1;
    var init := fs[..n];
    assert AllKnown(init);
    if i == n {
      assert init == fs[..i];
      OnlyUint64(fs[i].1);
      DescriptorRoundTrip(End(init, start), TYPES[fs[i].1]);
    } else {
      DescsDecode(init, start, i);
      assert init[..i] == fs[..i];
    }
  }

  /**
   * Fields are contiguous from `start`: field i starts at start + 8i, so each
   * one starts where the previous one ends.
   */
  lemma DescsContiguous(fs: seq<Decl>, start: nat, i: nat)
    requires AllKnown(fs) && i < |fs|
    ensures DescOffset(Descs(fs, start)[i]) == start + 8 * i
    ensures DescTypeSize(Descs(fs, start)[i]) == 8
  {
    DescsDecode(fs, start, i);
    EndIsEightPerField(fs[..i], start);
    OnlyUint64(fs[i].1);
  }

  /** Every key field ends at or before the first byte of every value field. */
  lemma KeysBeforeValues(keys: seq<Decl>, values: seq<Decl>, i: nat, j: nat)
    requires AllKnown(keys) && AllKnown(values) && i < |keys| && j < |values|
    ensures DescOffset(Descs(keys, 0)[i]) + DescTypeSize(Descs(keys, 0)[i])
         <= DescOffset(Descs(values, End(keys, 0))[j])
  {
    DescsContiguous(keys, 0, i);
    DescsContiguous(values, End(keys, 0), j);
    EndIsEightPerField(keys, 0);
  }

  /** The id table holds the ids it started with and exactly the declared ids. */
  lemma {:induction false} AssignDomain(h: map<Symbol, nat>, fs: seq<Decl>, ds: seq<nat>, id: Symbol)
    requires |fs| == |ds|
    ensures id in Assign(h, fs, ds) <==> id in h || exists i :: 0 <= i < |fs| && fs[i].0 == id
  {
    if fs != [] {
      var n := |fs| - 1;
      AssignDomain(h, fs[..n], ds[..n], id);
      if exists i :: 0 <= i < n && fs[..n][i].0 == id {
        var i :| 0 <= i < n && fs[..n][i].0 == id;
        assert fs[i].0 == id;
      }
      if exists i :: 0 <= i < |fs| && fs[i].0 == id {
        var i :| 0 <= i < |fs| && fs[i].0 == id;
        if i < n {
          assert fs[..n][i].0 == id;
        }
      }
    }
  }

  /** An id declared more than once maps to the descriptor of its last declaration. */
  lemma {:induction false} AssignLast(h: map<Symbol, nat>, fs: seq<Decl>, ds: seq<nat>, i: nat)
    requires |fs| == |ds| && i < |fs|
    requires forall j :: i < j < |fs| ==> fs[j].0 != fs[i].0
    ensures fs[i].0 in Assign(h, fs, ds) && Assign(h, fs, ds)[fs[i].0] == ds[i]
  {
    var n := |fs| - 1;
    if i < n {
      AssignLast(h, fs[..n], ds[..n], i);
    }
  }

  /** An id not declared in `fs` keeps the entry it had. */
  lemma {:induction false} AssignKeeps(h: map<Symbol, nat>, fs: seq<Decl>, ds: seq<nat>, id: Symbol)
    requires |fs| == |ds| && id in h
    requires forall j :: 0 <= j < |fs| ==> fs[j].0 != id
    ensures id in Assign(h, fs, ds) && Assign(h, fs, ds)[id] == h[id]
  {
    if fs != [] {
      var n := |fs| - 1;
      AssignKeeps(h, fs[..n], ds[..n], id);
    }
  }
}
