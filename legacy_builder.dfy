/**
 * The older schema builder of lib/RecordModel.rb.  Its `Builder` has no
 * defaults and no 255-byte limit, knows fewer types, and lets a `:hexstr`
 * without a size through `type_size`; its `build_query` bounds only the key
 * fields; its `def_parse_descr` also accepts `[id, :fixint, extra]`.
 */
module LegacyBuilder {
  import opened Wrappers
  import opened RubyValues

  /** One field spec `[id, type, is_key, offset, length]`; the length is nil for an unsized hexstr. */
  datatype FieldSpec = FieldSpec(id: string, typ: string, isKey: bool, offset: nat, length: Option<nat>)

  /** The byte size of each fixed-width type this builder knows. */
  function FixedSize(typ: string): Option<nat>
  {
    match typ
    case "uint64" => Some(8)
    case "uint32" => Some(4)
    case "uint16" => Some(2)
    case "uint8" => Some(1)
    case "double" => Some(8)
    case _ => None
  }

  /**
   * `type_size`: the table size, or the declared size (possibly nil) for
   * hexstr; an unknown type or a declared size that differs raises.
   */
  function TypeSize(typ: string, sz: Option<nat>): (r: Result<Option<nat>>)
    ensures r.Ok? <==> (FixedSize(typ).Some? && (sz.None? || sz.value == FixedSize(typ).value)) || typ == "hexstr"
    ensures r.Ok? && sz.Some? ==> r.value == sz
    ensures r.Ok? ==> (r.value.None? <==> typ == "hexstr" && sz.None?)
    ensures r.Err? ==> r.error == RuntimeError
  {
    if FixedSize(typ).Some? then
      if sz.Some? && FixedSize(typ).value != sz.value then Err(RuntimeError) else Ok(FixedSize(typ))
    else if typ == "hexstr" then Ok(sz)
    else Err(RuntimeError)
  }

  /** The length a spec occupies; a nil length advanced nothing. */
  function Width(f: FieldSpec): nat
  {
    if f.length.Some? then f.length.value else 0
  }

  function TotalLength(fs: seq<FieldSpec>): nat
  {
    if fs == [] then 0 else TotalLength(fs[..|fs| - 1]) + Width(fs[|fs| - 1])
  }

  function Ids(fs: seq<FieldSpec>): (ids: seq<string>)
    ensures |ids| == |fs| && forall i :: 0 <= i < |fs| ==> ids[i] == fs[i].id
  {
    if fs == [] then [] else Ids(fs[..|fs| - 1]) + [fs[|fs| - 1].id]
  }

  /** Contiguous offsets from 0 in declaration order, and distinct ids. */
  predicate Laid(fs: seq<FieldSpec>)
  {
    && (forall i :: 0 <= i < |fs| ==> fs[i].offset == TotalLength(fs[..i]))
    && (forall i, j :: 0 <= i < j < |fs| ==> fs[i].id != fs[j].id)
  }

  /** Appending a spec at the running offset with a new id keeps the layout. */
  lemma LaidAppend(fs: seq<FieldSpec>, spec: FieldSpec)
    requires Laid(fs) && spec.offset == TotalLength(fs) && spec.id !in Ids(fs)
    ensures Laid(fs + [spec]) && TotalLength(fs + [spec]) == TotalLength(fs) + Width(spec)
  {
    var fs' := fs + [spec];
    assert fs'[..|fs|] == fs;
    forall i | 0 <= i < |fs'|
      ensures fs'[i].offset == TotalLength(fs'[..i])
    {
      if i < |fs| {
        assert fs'[..i] == fs[..i];
      }
    }
    forall i, j | 0 <= i < j < |fs'|
      ensures fs'[i].id != fs'[j].id
    {
      if j == |fs| {
        assert Ids(fs)[i] == fs[i].id;
      }
    }
  }

  /** Each field starts where the previous one ends. */
  lemma LaidContiguous(fs: seq<FieldSpec>, i: nat)
    requires Laid(fs) && i + 1 < |fs|
    ensures fs[i + 1].offset == fs[i].offset + Width(fs[i])
  {
    assert fs[..i + 1][..i] == fs[..i];
  }

  class Builder {
    var fields: seq<FieldSpec>
    var currentOffset: nat

    predicate Valid()
      reads this
    {
      Laid(fields) && currentOffset == TotalLength(fields)
    }

    constructor()
      ensures fields == [] && currentOffset == 0 && Valid()
    {
      fields := [];
      currentOffset := 0;
    }

    /**
     * `field` (through `key`/`val`): size the type, refuse a duplicate id,
     * append the spec, then advance the offset.  With a nil size the spec is
     * already appended when `@current_offset += nil` raises TypeError.
     */
    method Field(id: string, typ: string, isKey: bool, sz: Option<nat>) returns (r: Outcome)
      requires Valid()
      modifies this
      ensures Valid()
      ensures r.Pass? <==> TypeSize(typ, sz).Ok? && TypeSize(typ, sz).value.Some? && id !in Ids(old(fields))
      ensures TypeSize(typ, sz).Ok? && id !in Ids(old(fields)) ==>
        fields == old(fields) + [FieldSpec(id, typ, isKey, old(currentOffset), TypeSize(typ, sz).value)]
      ensures TypeSize(typ, sz).Err? || id in Ids(old(fields)) ==> fields == old(fields)
      ensures currentOffset == old(currentOffset) + (if r.Pass? then TypeSize(typ, sz).value.value else 0)
      ensures r.Fail? ==> r.error == if TypeSize(typ, sz).Ok? && id !in Ids(old(fields)) then TypeError else RuntimeError
    {
      var size := TypeSize(typ, sz);
      if size.Err? {
        return Fail(size.error);
      }
      if id in Ids(fields) {
        return Fail(RuntimeError);
      }
      var spec := FieldSpec(id, typ, isKey, currentOffset, size.value);
      LaidAppend(fields, spec);
      fields := fields + [spec];
      if size.value.None? {
        return Fail(TypeError);
      }
      currentOffset := currentOffset + size.value.value;
      return Pass;
    }
  }

  // ---------------------------------------------------------------------
  // build_query
  // ---------------------------------------------------------------------

  /** The symbol naming a field. */
  function IdSym(f: FieldSpec): Value
  {
    Sym(f.id)
  }

  /** The query is accepted: no key field gets an end-exclusive range, and every query key names a key field. */
  predicate QueryAccepted(info: seq<FieldSpec>, query: map<Value, Value>)
  {
    && (forall i :: 0 <= i < |info| && info[i].isKey && IdSym(info[i]) in query ==>
          !(query[IdSym(info[i])].Range? && query[IdSym(info[i])].exclusive))
    && (forall k :: k in query ==> exists i :: 0 <= i < |info| && info[i].isKey && IdSym(info[i]) == k)
  }

  /** The lower bound field i gets: untouched for a value field, the query's lower end, or the minimum. */
  function FromBound(f: FieldSpec, query: map<Value, Value>, blank: Value, min: Value): Value
  {
    if !f.isKey then blank
    else if IdSym(f) in query then
      var q := query[IdSym(f)]; if q.Range? then q.first else q
    else min
  }

  /** The upper bound field i gets: untouched for a value field, the query's upper end, or the maximum. */
  function ToBound(f: FieldSpec, query: map<Value, Value>, blank: Value, max: Value): Value
  {
    if !f.isKey then blank
    else if IdSym(f) in query then
      var q := query[IdSym(f)]; if q.Range? then q.last else q
    else max
  }

  /**
   * `build_query`: both bounds start as fresh records (`blank`); each key
   * field takes its query entry, or the minimum (`mins`) and maximum (`maxs`)
   * when the query does not name it; value fields are skipped; a query key
   * that is not a key field raises ArgumentError afterwards.
   */
  method BuildQuery(info: seq<FieldSpec>, blank: seq<Value>, mins: seq<Value>, maxs: seq<Value>, query: map<Value, Value>)
    returns (r: Result<(seq<Value>, seq<Value>)>)
    requires |blank| == |mins| == |maxs| == |info|
    ensures r.Ok? <==> QueryAccepted(info, query)
    ensures r.Err? ==> r.error == ArgumentError
    ensures r.Ok? ==>
      && r.value.0 == seq(|info|, i requires 0 <= i < |info| => FromBound(info[i], query, blank[i], mins[i]))
      && r.value.1 == seq(|info|, i requires 0 <= i < |info| => ToBound(info[i], query, blank[i], maxs[i]))
  {
    var from, to := blank, blank;
    var used: set<Value> := {};
    var idx := 0;
    while idx < |info|
      invariant 0 <= idx <= |info| && |from| == |to| == |info|
      invariant forall i :: 0 <= i < idx && info[i].isKey && IdSym(info[i]) in query ==>
        !(query[IdSym(info[i])].Range? && query[IdSym(info[i])].exclusive)
      invariant used == set i | 0 <= i < idx && info[i].isKey && IdSym(info[i]) in query :: IdSym(info[i])
      invariant forall i :: 0 <= i < idx ==> from[i] == FromBound(info[i], query, blank[i], mins[i])
      invariant forall i :: 0 <= i < idx ==> to[i] == ToBound(info[i], query, blank[i], maxs[i])
      invariant forall i :: idx <= i < |info| ==> from[i] == blank[i] && to[i] == blank[i]
    {
      var fld := info[idx];
      if fld.isKey {
        var id := Sym(fld.id);
        if id in query {
          used := used + {id};
          var q := query[id];
          if q.Range? {
            if q.exclusive {
              return Err(ArgumentError);
            }
            from := from[idx := q.first];
            to := to[idx := q.last];
          } else {
            from := from[idx := q];
            to := to[idx := q];
          }
        } else {
          from := from[idx := mins[idx]];
          to := to[idx := maxs[idx]];
        }
      }
      idx := idx + 1;
    }
    if query.Keys - used != {} {
      var k :| k in query.Keys - used;
      assert !exists i :: 0 <= i < |info| && info[i].isKey && IdSym(info[i]) == k;
      return Err(ArgumentError);
    }
    forall k | k in query
      ensures exists i :: 0 <= i < |info| && info[i].isKey && IdSym(info[i]) == k
    {
      assert k in used;
    }
    return Ok((from, to));
  }

  // ---------------------------------------------------------------------
  // def_parse_descr
  // ---------------------------------------------------------------------

  /** 2^32: the shift of the fixint tag. */
  const TWO32: nat := 0x1_0000_0000

  /** `(((extra << 8) | 0x01) << 32) | idx` for a field index below 2^32. */
  function Fixint(extra: int, idx: nat): int
  {
    (extra * 256 + 1) * TWO32 + idx
  }

  /** The fixint descriptor gives back the index in its low 32 bits, the tag 1 above it, and `extra` above the tag. */
  lemma FixintRoundTrip(extra: int, idx: nat)
    requires idx < TWO32
    ensures Fixint(extra, idx) % TWO32 == idx
    ensures (Fixint(extra, idx) / TWO32) % 256 == 1
    ensures Fixint(extra, idx) / TWO32 / 256 == extra
  {
    var hi := extra * 256 + 1;
    DivModOf(Fixint(extra, idx), TWO32, hi, idx);
    DivModOf(hi, 256, extra, 1);
  }

  /** Euclidean division by d of q*d + r with 0 <= r < d gives quotient q and remainder r. */
  lemma DivModOf(n: int, d: nat, q: int, r: nat)
    requires d > 0 && r < d && n == q * d + r
    ensures n / d == q && n % d == r
  {
    var q', r' := n / d, n % d;
    assert q' * d + r' == q * d + r;
    if q' > q {
      assert (q' - q) * d == r - r';
      MulAtLeast(q' - q, d);
    } else if q' < q {
      assert (q - q') * d == r' - r;
      MulAtLeast(q - q', d);
    }
  }

  lemma MulAtLeast(k: int, d: nat)
    requires k >= 1
    ensures k * d >= d
  {
  }

  /** The position of the field named by a symbol value. */
  function IndexOfSym(info: seq<FieldSpec>, v: Value): Option<nat>
  {
    if v.Sym? then IndexOf(Ids(info), v.name) else None
  }

  /** The element at position i of a destructured array, nil past its end. */
  function Nth(items: seq<Value>, i: nat): Value
  {
    if i < |items| then items[i] else Nil
  }

  /**
   * One argument of `def_parse_descr`: nil is nil; a symbol is its field
   * index (unknown: bare raise); `[id, :fixint, extra]` is the fixint
   * descriptor (unknown id: bare raise; another type: ArgumentError; a nil
   * extra has no `<<`: NoMethodError; an array extra fails in `|`: TypeError);
   * anything else raises ArgumentError.
   */
  function Descr(info: seq<FieldSpec>, arg: Value): (r: Result<Option<int>>)
    requires |info| <= TWO32
    ensures arg.Nil? ==> r == Ok(None)
    ensures arg.Sym? ==> (r.Ok? <==> arg.name in Ids(info))
    ensures arg.Sym? && r.Ok? ==> r.value.Some? && 0 <= r.value.value < |info| && info[r.value.value].id == arg.name
    ensures arg.Arr? && r.Ok? ==>
      && IndexOfSym(info, Nth(arg.items, 0)).Some?
      && Nth(arg.items, 1) == Sym("fixint") && Nth(arg.items, 2).Int?
      && r.value.Some? && r.value.value % TWO32 == IndexOfSym(info, Nth(arg.items, 0)).value
      && r.value.value / TWO32 / 256 == Nth(arg.items, 2).i
    ensures !(arg.Nil? || arg.Sym? || arg.Arr?) ==> r == Err(ArgumentError)
  {
    match arg
    case Nil => Ok(None)
    case Sym(_) =>
      (match IndexOfSym(info, arg) case None => Err(RuntimeError) case Some(i) => Ok(Some(i)))
    case Arr(items) =>
      (match IndexOfSym(info, Nth(items, 0))
       case None => Err(RuntimeError)
       case Some(idx) =>
         if Nth(items, 1) != Sym("fixint") then Err(ArgumentError)
         else if Nth(items, 2).Int? then
           FixintRoundTrip(Nth(items, 2).i, idx);
           Ok(Some(Fixint(Nth(items, 2).i, idx)))
         else if Nth(items, 2).Arr? then Err(TypeError)
         else Err(NoMethodError))
    case _ => Err(ArgumentError)
  }

  /** `def_parse_descr`: each argument translated in order; the first failure raises. */
  function ParseDescr(info: seq<FieldSpec>, args: seq<Value>): (r: Result<seq<Option<int>>>)
    requires |info| <= TWO32
    ensures r.Ok? <==> forall i :: 0 <= i < |args| ==> Descr(info, args[i]).Ok?
    ensures r.Ok? ==> |r.value| == |args| && forall i :: 0 <= i < |args| ==> r.value[i] == Descr(info, args[i]).value
    ensures r.Err? ==> exists i :: (0 <= i < |args| && Descr(info, args[i]).Err? &&
      r.error == Descr(info, args[i]).error && forall j :: 0 <= j < i ==> Descr(info, args[j]).Ok?)
  {
    if args == [] then Ok([])
    else
      var head := Descr(info, args[0]);
      if head.Err? then Err(head.error)
      else
        var rest := ParseDescr(info, args[1..]);
        assert forall j :: 1 <= j < |args| ==> args[j] == args[1..][j - 1];
        if rest.Err? then Err(rest.error)
        else Ok([head.value] + rest.value)
  }
}
