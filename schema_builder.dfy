/**
 * The schema builder and the query helpers of lib/RecordModel/RecordModel.rb.
 * `Builder` appends one field spec `[id, type, is_key, offset, length,
 * default?]` per declaration and advances the running offset by the field's
 * size; `build_query` turns a query hash into a pair of bound records;
 * `def_parse_descr` and `sym_to_fld_idx` translate field ids to positions.
 */
module SchemaBuilder {
  import opened Wrappers
  import opened RubyValues

  /** One field spec; `default` is the optional sixth entry. */
  datatype FieldSpec = FieldSpec(id: string, typ: string, isKey: bool, offset: nat, length: nat, default: Option<Value>)

  /** The byte size of each fixed-width type. */
  function FixedSize(typ: string): Option<nat>
  {
    match typ
    case "uint64" => Some(8)
    case "uint32" => Some(4)
    case "uint16" => Some(2)
    case "uint8" => Some(1)
    case "timestamp" => Some(8)
    case "timestamp_desc" => Some(8)
    case "double" => Some(8)
    case _ => None
  }

  /** The types whose size is the one declared with them. */
  predicate SizedByDeclaration(typ: string)
  {
    typ == "hexstr" || typ == "string"
  }

  /**
   * `type_size`: the table size, or the declared size for hexstr/string.
   * A bare `raise` is a RuntimeError; a hexstr/string without a size leaves
   * `size` nil, and `nil > 255` raises NoMethodError.
   */
  function TypeSize(typ: string, sz: Option<nat>): (r: Result<nat>)
    ensures r.Ok? ==> r.value <= 255
    ensures r.Ok? && sz.Some? ==> r.value == sz.value
    ensures r.Ok? <==>
      || (FixedSize(typ).Some? && (sz.None? || sz.value == FixedSize(typ).value))
      || (SizedByDeclaration(typ) && sz.Some? && sz.value <= 255)
    ensures r.Err? ==> (r.error == NoMethodError <==> SizedByDeclaration(typ) && sz.None?)
    ensures r.Err? ==> r.error == NoMethodError || r.error == RuntimeError
  {
    if FixedSize(typ).Some? then
      var size := FixedSize(typ).value;
      if sz.Some? && size != sz.value then Err(RuntimeError) else Ok(size)
    else if SizedByDeclaration(typ) then
      match sz
      case None => Err(NoMethodError)
      case Some(size) => if size > 255 then Err(RuntimeError) else Ok(size)
    else Err(RuntimeError)
  }

  /** The sizes the table gives, as the tests expect them. */
  lemma TypeSizeTable()
    ensures TypeSize("uint64", None) == Ok(8) && TypeSize("timestamp", None) == Ok(8)
    ensures TypeSize("timestamp_desc", None) == Ok(8) && TypeSize("double", None) == Ok(8)
    ensures TypeSize("uint32", None) == Ok(4) && TypeSize("uint16", None) == Ok(2)
    ensures TypeSize("uint8", None) == Ok(1)
    ensures TypeSize("hexstr", Some(16)) == Ok(16) && TypeSize("string", Some(255)) == Ok(255)
    ensures TypeSize("hexstr", Some(256)) == Err(RuntimeError)
    ensures TypeSize("uint32", Some(8)) == Err(RuntimeError)
  {
  }

  /** The ids of the specs, in order. */
  function Ids(fs: seq<FieldSpec>): (ids: seq<string>)
    ensures |ids| == |fs| && forall i :: 0 <= i < |fs| ==> ids[i] == fs[i].id
  {
    if fs == [] then [] else Ids(fs[..|fs| - 1]) + [fs[|fs| - 1].id]
  }

  /** Sum of the lengths of the specs. */
  function TotalLength(fs: seq<FieldSpec>): nat
  {
    if fs == [] then 0 else TotalLength(fs[..|fs| - 1]) + fs[|fs| - 1].length
  }

  /** What the builder keeps true: each field starts where the previous ones end; ids are distinct; sizes fit a byte. */
  predicate Laid(fs: seq<FieldSpec>)
  {
    && (forall i :: 0 <= i < |fs| ==> fs[i].offset == TotalLength(fs[..i]) && fs[i].length <= 255)
    && (forall i, j :: 0 <= i < j < |fs| ==> fs[i].id != fs[j].id)
  }

  /** Offsets start at 0 and each field starts right after the previous one. */
  lemma LaidContiguous(fs: seq<FieldSpec>, i: nat)
    requires Laid(fs) && i < |fs|
    ensures i == 0 ==> fs[i].offset == 0
    ensures i + 1 < |fs| ==> fs[i + 1].offset == fs[i].offset + fs[i].length
  {
    if i + 1 < |fs| {
      assert fs[..i + 1][..i] == fs[..i];
    }
  }

  /** Appending a spec at the running offset, with a new id and a byte-sized length, keeps the layout. */
  lemma LaidAppend(fs: seq<FieldSpec>, spec: FieldSpec)
    requires Laid(fs) && spec.offset == TotalLength(fs) && spec.length <= 255 && spec.id !in Ids(fs)
    ensures Laid(fs + [spec]) && TotalLength(fs + [spec]) == TotalLength(fs) + spec.length
  {
    var fs' := fs + [spec];
    assert fs'[..|fs|] == fs;
    forall i | 0 <= i < |fs'|
      ensures fs'[i].offset == TotalLength(fs'[..i])
    {
      if i < |fs| {
        assert fs'[..i] == fs[..i];
      }
    }
    forall i, j | 0 <= i < j < |fs'|
      ensures fs'[i].id != fs'[j].id
    {
      if j == |fs| {
        assert Ids(fs)[i] == fs[i].id;
      }
    }
  }

  class Builder {
    var fields: seq<FieldSpec>
    var currentOffset: nat

    predicate Valid()
      reads this
    {
      Laid(fields) && currentOffset == TotalLength(fields)
    }

    constructor()
      ensures fields == [] && currentOffset == 0 && Valid()
    {
      fields := [];
      currentOffset := 0;
    }

    /**
     * `field` (reached through `key`, with isKey true, and `val`): size the
     * type, refuse an id already declared, append the spec at the running
     * offset and advance the offset.  A raise leaves the builder unchanged.
     */
    method Field(id: string, typ: string, isKey: bool, sz: Option<nat>, default: Value) returns (r: Outcome)
      requires Valid()
      modifies this
      ensures Valid()
      ensures r.Pass? <==> TypeSize(typ, sz).Ok? && id !in Ids(old(fields))
      ensures r.Pass? ==>
        && fields == old(fields) + [FieldSpec(id, typ, isKey, old(currentOffset), TypeSize(typ, sz).value,
                                              if Truthy(default) then Some(default) else None)]
        && currentOffset == old(currentOffset) + TypeSize(typ, sz).value
      ensures r.Fail? ==> fields == old(fields) && currentOffset == old(currentOffset)
      ensures r.Fail? ==> r.error == if TypeSize(typ, sz).Err? then TypeSize(typ, sz).error else RuntimeError
    {
      var size := TypeSize(typ, sz);
      if size.Err? {
        return Fail(size.error);
      }
      if id in Ids(fields) {
        return Fail(RuntimeError);
      }
      var spec := FieldSpec(id, typ, isKey, currentOffset, size.value, if Truthy(default) then Some(default) else None);
      LaidAppend(fields, spec);
      fields := fields + [spec];
      currentOffset := currentOffset + size.value;
      return Pass;
    }
  }

  // ---------------------------------------------------------------------
  // sym_to_fld_idx, def_parse_descr
  // ---------------------------------------------------------------------

  /** `sym_to_fld_idx`: the position of the first field named `sym`; a bare `raise` when there is none. */
  function FieldIndex(info: seq<FieldSpec>, sym: Value): (r: Result<nat>)
    ensures r.Ok? ==> sym.Sym? && r.value < |info| && info[r.value].id == sym.name
    ensures r.Ok? ==> forall j :: 0 <= j < r.value ==> info[j].id != sym.name
    ensures r.Err? <==> !sym.Sym? || sym.name !in Ids(info)
    ensures r.Err? ==> r.error == RuntimeError
  {
    if !sym.Sym? then Err(RuntimeError)
    else
      match IndexOf(Ids(info), sym.name)
      case None => Err(RuntimeError)
      case Some(i) => Ok(i)
  }

  /**
   * `def_parse_descr`: nil stays nil, a symbol becomes its field index, any
   * other argument raises ArgumentError; the first failing argument decides.
   */
  function ParseDescr(info: seq<FieldSpec>, args: seq<Value>): (r: Result<seq<Option<nat>>>)
    ensures r.Ok? <==> forall i :: 0 <= i < |args| ==> args[i].Nil? || FieldIndex(info, args[i]).Ok?
    ensures r.Ok? ==> |r.value| == |args|
    ensures r.Ok? ==> forall i :: 0 <= i < |args| ==>
      r.value[i] == if args[i].Nil? then None else Some(FieldIndex(info, args[i]).value)
    ensures r.Err? ==> exists i :: (0 <= i < |args| && !args[i].Nil? &&
      r.error == (if args[i].Sym? then RuntimeError else ArgumentError) &&
      forall j :: 0 <= j < i ==> args[j].Nil? || FieldIndex(info, args[j]).Ok?)
  {
    if args == [] then Ok([])
    else
      var head: Result<Option<nat>> :=
        if args[0].Nil? then Ok(None)
        else if args[0].Sym? then (match FieldIndex(info, args[0]) case Ok(i) => Ok(Some(i)) case Err(e) => Err(e))
        else Err(ArgumentError);
      if head.Err? then Err(head.error)
      else
        var rest := ParseDescr(info, args[1..]);
        if rest.Err? then
          assert forall j :: 1 <= j < |args| ==> args[j] == args[1..][j - 1];
          Err(rest.error)
        else
          var out := [head.value] + rest.value;
          assert forall j :: 1 <= j < |args| ==> args[j] == args[1..][j - 1] && out[j] == rest.value[j - 1];
          Ok(out)
  }

  // ---------------------------------------------------------------------
  // build_query
  // ---------------------------------------------------------------------

  /** The lower bound a query value sets: the first element of a range, else the value itself. */
  function Lower(q: Value): Value
  {
    if q.Range? then q.first else q
  }

  /** The upper bound a query value sets: the last element of a range, else the value itself. */
  function Upper(q: Value): Value
  {
    if q.Range? then q.last else q
  }

  /** A query entry `build_query` refuses: an unknown id, or a range that excludes its end. */
  predicate BadEntry(info: seq<FieldSpec>, e: (Value, Value))
  {
    FieldIndex(info, e.0).Err? || (e.1.Range? && e.1.exclusive)
  }

  /** The bounds after applying the query entries in hash order to `from` and `to`. */
  function ApplyQuery(info: seq<FieldSpec>, query: seq<(Value, Value)>, from: seq<Value>, to: seq<Value>)
    : (r: Result<(seq<Value>, seq<Value>)>)
    requires |from| == |to| == |info|
    ensures r.Ok? ==> |r.value.0| == |r.value.1| == |info|
  {
    if query == [] then Ok((from, to))
    else
      var (id, q) := query[0];
      match FieldIndex(info, id)
      case Err(e) => Err(e)
      case Ok(idx) =>
        if q.Range? && q.exclusive then Err(ArgumentError)
        else ApplyQuery(info, query[1..], from[idx := Lower(q)], to[idx := Upper(q)])
  }

  /**
   * `build_query`: from = all-minimum, to = all-maximum (`mins`/`maxs`, the
   * per-field limits `set_min`/`set_max` write), then each query entry in
   * hash order.
   */
  method BuildQuery(info: seq<FieldSpec>, mins: seq<Value>, maxs: seq<Value>, query: seq<(Value, Value)>)
    returns (r: Result<(seq<Value>, seq<Value>)>)
    requires |mins| == |maxs| == |info|
    ensures r == ApplyQuery(info, query, mins, maxs)
  {
    var from, to := mins, maxs;
    var i := 0;
    while i < |query|
      invariant 0 <= i <= |query| && |from| == |to| == |info|
      invariant ApplyQuery(info, query, mins, maxs) == ApplyQuery(info, query[i..], from, to)
    {
      assert query[i..][1..] == query[i + 1..];
      var (id, q) := query[i];
      var idx := FieldIndex(info, id);
      if idx.Err? {
        return Err(idx.error);
      }
      if q.Range? {
        if q.exclusive {
          return Err(ArgumentError);
        }
        from := from[idx.value := q.first];
        to := to[idx.value := q.last];
      } else {
        from := from[idx.value := q];
        to := to[idx.value := q];
      }
      i := i + 1;
    }
    return Ok((from, to));
  }

  /** The position of the first bad entry of the query, or its length when there is none. */
  function FirstBad(info: seq<FieldSpec>, query: seq<(Value, Value)>): (n: nat)
    ensures n <= |query|
    ensures forall j :: 0 <= j < n ==> !BadEntry(info, query[j])
    ensures n < |query| ==> BadEntry(info, query[n])
  {
    if query == [] || BadEntry(info, query[0]) then 0
    else
      var n := FirstBad(info, query[1..]);
      assert forall j :: 1 <= j < n + 1 ==> query[j] == query[1..][j - 1];
      n + 1
  }

  /** The query is accepted exactly when no entry is bad; a refusal is for the first bad entry. */
  lemma {:induction false} ApplyQueryOk(info: seq<FieldSpec>, query: seq<(Value, Value)>, from: seq<Value>, to: seq<Value>)
    requires |from| == |to| == |info|
    ensures ApplyQuery(info, query, from, to).Ok? <==> forall k :: 0 <= k < |query| ==> !BadEntry(info, query[k])
    ensures var n := FirstBad(info, query);
      n < |query| ==> ApplyQuery(info, query, from, to) == Err(if FieldIndex(info, query[n].0).Err? then RuntimeError else ArgumentError)
  {
    ApplyQueryFirstBad(info, query, from, to);
  }

  lemma {:induction false} ApplyQueryFirstBad(info: seq<FieldSpec>, query: seq<(Value, Value)>, from: seq<Value>, to: seq<Value>)
    requires |from| == |to| == |info|
    ensures var n := FirstBad(info, query);
      && (n == |query| ==> ApplyQuery(info, query, from, to).Ok?)
      && (n < |query| ==> ApplyQuery(info, query, from, to) == Err(if FieldIndex(info, query[n].0).Err? then RuntimeError else ArgumentError))
  {
    if query != [] && !BadEntry(info, query[0]) {
      var (id, q) := query[0];
      var idx := FieldIndex(info, id).value;
      var rest := query[1..];
      ApplyQueryFirstBad(info, rest, from[idx := Lower(q)], to[idx := Upper(q)]);
      var m := FirstBad(info, rest);
      assert FirstBad(info, query) == m + 1;
      if m < |rest| {
        assert query[m + 1] == rest[m];
      }
    }
  }

  /** The field a query entry names (for an accepted entry). */
  function EntryField(info: seq<FieldSpec>, e: (Value, Value)): nat
    requires !BadEntry(info, e)
  {
    FieldIndex(info, e.0).value
  }

  /**
   * For an accepted query with distinct keys (a hash), every field named by
   * an entry gets that entry's bounds, and every other field keeps its
   * minimum in `from` and its maximum in `to`.
   */
  lemma {:induction false} ApplyQueryBounds(info: seq<FieldSpec>, query: seq<(Value, Value)>, from: seq<Value>, to: seq<Value>, f: nat)
    requires |from| == |to| == |info| && f < |info|
    requires forall j, k :: 0 <= j < k < |query| ==> query[j].0 != query[k].0
    requires ApplyQuery(info, query, from, to).Ok?
    ensures forall k :: 0 <= k < |query| ==> !BadEntry(info, query[k])
    ensures (exists k :: 0 <= k < |query| && EntryField(info, query[k]) == f) ==>
      forall k :: 0 <= k < |query| && EntryField(info, query[k]) == f ==>
        ApplyQuery(info, query, from, to).value.0[f] == Lower(query[k].1) &&
        ApplyQuery(info, query, from, to).value.1[f] == Upper(query[k].1)
    ensures (forall k :: 0 <= k < |query| ==> EntryField(info, query[k]) != f) ==>
      ApplyQuery(info, query, from, to).value.0[f] == from[f] &&
      ApplyQuery(info, query, from, to).value.1[f] == to[f]
  {
    ApplyQueryOk(info, query, from, to);
    if query != [] {
      var (id, q) := query[0];
      var idx := FieldIndex(info, id).value;
      var from', to' := from[idx := Lower(q)], to[idx := Upper(q)];
      var rest := query[1..];
      assert forall k :: 1 <= k < |query| ==> query[k] == rest[k - 1];
      ApplyQueryBounds(info, rest, from', to', f);
      if idx == f {
        forall k | 1 <= k < |query|
          ensures EntryField(info, query[k]) != f
        {
          assert query[k].0 != id;
        }
      }
    }
  }
}
