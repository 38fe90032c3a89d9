/**
 * The C extension of ext/RecordModel/RecordModel.cc: `RecordModel#initialize`
 * building the field tables from the builder's specs, the field-index
 * argument helpers, and the record-array operations `bulk_set`,
 * `update_each`, `push` and the line-ingesting loop `bulk_parse_line`.
 *
 * The C++ `RecordModel` and `RecordModelInstanceArray` classes this file
 * calls into are not part of this model; they are represented by an abstract
 * field table (`get_field(i)` is field i, or NULL past the end) and a record
 * array of fixed capacity.  Field parsing, conversion from Ruby values and
 * the Ruby block are parameters.
 */
module RecordModelExt {
  import opened Wrappers
  import opened Bytes
  import opened FieldTypes

  /** The RM_Type subclasses `initialize` instantiates. */
  datatype Kind = UInt64 | UInt32 | UInt16 | UInt8 | Timestamp | TimestampDesc | Double | HexStr | Str

  /** The type symbols `initialize` knows (any other is `assert(false)`). */
  function KindOf(typ: string): Option<Kind>
  {
    match typ
    case "uint64" => Some(UInt64)
    case "uint32" => Some(UInt32)
    case "uint16" => Some(UInt16)
    case "uint8" => Some(UInt8)
    case "timestamp" => Some(Timestamp)
    case "timestamp_desc" => Some(TimestampDesc)
    case "double" => Some(Double)
    case "hexstr" => Some(HexStr)
    case "string" => Some(Str)
    case _ => None
  }

  /** `t->size()`: fixed for the numeric kinds, the declared length for strings. */
  function KindSize(k: Kind, length: nat): nat
  {
    match k
    case UInt64 => 8
    case UInt32 => 4
    case UInt16 => 2
    case UInt8 => 1
    case Timestamp => 8
    case TimestampDesc => 8
    case Double => 8
    case HexStr => length
    case Str => length
  }

  /** One builder spec `[id, type, is_key, offset, length (, default)]`, with `is_key` already tested for truth. */
  datatype Entry = Entry(id: string, typ: string, isKey: bool, offset: nat, length: nat, default: Option<nat>)

  /** One `RM_Type` of the model's tables. */
  datatype Field = Field(kind: Kind, offset: nat, size: nat, default: nat)

  /** What `initialize` asserts of each spec: a known type, a 16-bit offset, an 8-bit length equal to the type's size. */
  predicate EntryOk(e: Entry)
  {
    KindOf(e.typ).Some? && e.offset <= 0xFFFF && e.length <= 0xFF && e.length == KindSize(KindOf(e.typ).value, e.length)
  }

  /** The field `initialize` makes of a spec; a missing default is 0. */
  function FieldOf(e: Entry): Field
    requires EntryOk(e)
  {
    Field(KindOf(e.typ).value, e.offset, e.length, if e.default.Some? then e.default.value else 0)
  }

  /** The size assertion of `initialize`: the record size covers the key and value sizes together. */
  predicate SizeCovers(es: seq<Entry>)
    requires AllOk(es)
  {
    MaxEnd(AllFields(es)) >= SumSizes(Select(es, true)) + SumSizes(Select(es, false))
  }

  predicate AllOk(es: seq<Entry>)
  {
    forall i :: 0 <= i < |es| ==> EntryOk(es[i])
  }

  /** The fields of the specs whose key flag is `key`, in declaration order. */
  function Select(es: seq<Entry>, key: bool): (fs: seq<Field>)
    requires AllOk(es)
    ensures |fs| <= |es|
  {
    if es == [] then []
    else
      var init := es[..|es| - 1];
      var e := es[|es| - 1];
      Select(init, key) + (if e.isKey == key then [FieldOf(e)] else [])
  }

  /** The fields of all specs, in declaration order. */
  function AllFields(es: seq<Entry>): (fs: seq<Field>)
    requires AllOk(es)
    ensures |fs| == |es| && forall i :: 0 <= i < |es| ==> fs[i] == FieldOf(es[i])
  {
    if es == [] then [] else AllFields(es[..|es| - 1]) + [FieldOf(es[|es| - 1])]
  }

  function SumSizes(fs: seq<Field>): nat
  {
    if fs == [] then 0 else SumSizes(fs[..|fs| - 1]) + fs[|fs| - 1].size
  }

  /** The largest end offset `offset + size` over the fields, 0 for none. */
  function MaxEnd(fs: seq<Field>): nat
  {
    if fs == [] then 0
    else
      var m := MaxEnd(fs[..|fs| - 1]);
      var e := fs[|fs| - 1].offset + fs[|fs| - 1].size;
      if m < e then e else m
  }

  /** One more spec extends each table by at most its own field. */
  lemma TablesStep(es: seq<Entry>, i: nat)
    requires AllOk(es) && i < |es|
    ensures AllOk(es[..i]) && AllOk(es[..i + 1])
    ensures AllFields(es[..i + 1]) == AllFields(es[..i]) + [FieldOf(es[i])]
    ensures forall key :: (Select(es[..i + 1], key) ==
      Select(es[..i], key) + (if es[i].isKey == key then [FieldOf(es[i])] else []))
  {
    assert es[..i + 1][..i] == es[..i];
  }

  /** The first loop of `initialize`: the number of key specs and of value specs. */
  method CountFields(es: seq<Entry>) returns (nk: nat, nv: nat)
    requires AllOk(es)
    ensures nk == |Select(es, true)| && nv == |Select(es, false)|
  {
    nk, nv := 0, 0;
    var i := 0;
    while i < |es|
      invariant 0 <= i <= |es|
      invariant nk == |Select(es[..i], true)| && nv == |Select(es[..i], false)|
    {
      TablesStep(es, i);
      if es[i].isKey { nk := nk + 1; } else { nv := nv + 1; }
      i := i + 1;
    }
    assert es[..i] == es;
  }

  /** The second loop of `initialize`: the three tables, the record size and the key and value sizes. */
  method BuildTables(es: seq<Entry>)
    returns (all: seq<Field>, ks: seq<Field>, vs: seq<Field>, maxSz: nat, sizeK: nat, sizeV: nat)
    requires AllOk(es)
    ensures all == AllFields(es) && ks == Select(es, true) && vs == Select(es, false)
    ensures maxSz == MaxEnd(all) && sizeK == SumSizes(ks) && sizeV == SumSizes(vs)
  {
    all, ks, vs := [], [], [];
    maxSz, sizeK, sizeV := 0, 0, 0;
    var i := 0;
    while i < |es|
      invariant 0 <= i <= |es|
      invariant all == AllFields(es[..i]) && ks == Select(es[..i], true) && vs == Select(es[..i], false)
      invariant maxSz == MaxEnd(all) && sizeK == SumSizes(ks) && sizeV == SumSizes(vs)
    {
      TablesStep(es, i);
      var t := FieldOf(es[i]);
      all := all + [t];
      assert all[..|all| - 1] == AllFields(es[..i]);
      if es[i].isKey {
        ks := ks + [t];
        assert ks[..|ks| - 1] == Select(es[..i], true);
        sizeK := sizeK + t.size;
      } else {
        vs := vs + [t];
        assert vs[..|vs| - 1] == Select(es[..i], false);
        sizeV := sizeV + t.size;
      }
      maxSz := if maxSz < t.offset + t.size then t.offset + t.size else maxSz;
      i := i + 1;
    }
    assert es[..i] == es;
  }

  class ExtModel {
    var initialized: bool
    var allFields: seq<Field>
    var keys: seq<Field>
    var values: seq<Field>
    var numKeys: nat
    var numValues: nat
    var size: nat
    var sizeKeys: nat
    var sizeValues: nat

    /** A freshly allocated model: no tables yet (`is_virgin`). */
    constructor()
      ensures !initialized && allFields == [] && keys == [] && values == []
      ensures numKeys == 0 && numValues == 0 && size == 0 && sizeKeys == 0 && sizeValues == 0
    {
      initialized := false;
      allFields, keys, values := [], [], [];
      numKeys, numValues := 0, 0;
      size, sizeKeys, sizeValues := 0, 0, 0;
    }

    /** `get_field(i)`: field i, or NULL past the end of the table. */
    function GetField(i: nat): Option<Field>
      reads this
    {
      if i < |allFields| then Some(allFields[i]) else None
    }

    /**
     * `RecordModel#initialize`: refuses a second call; otherwise counts keys
     * and values, then builds the field table, the key table and the value
     * table in declaration order, summing key and value sizes and taking the
     * record size as the largest `offset + size`.
     */
    method Initialize(es: seq<Entry>) returns (r: Outcome)
      requires AllOk(es)
      requires SizeCovers(es)
      modifies this
      ensures old(initialized) ==> r == Fail(ArgumentError) && unchanged(this)
      ensures !old(initialized) ==> r == Pass && initialized
      ensures !old(initialized) ==>
        && allFields == AllFields(es) && keys == Select(es, true) && values == Select(es, false)
        && numKeys == |keys| && numValues == |values|
        && size == MaxEnd(allFields) && sizeKeys == SumSizes(keys) && sizeValues == SumSizes(values)
    {
      if initialized {
        return Fail(ArgumentError);
      }
      var nk, nv := CountFields(es);
      var all, ks, vs, maxSz, sizeK, sizeV := BuildTables(es);
      initialized := true;
      allFields, keys, values := all, ks, vs;
      numKeys, numValues := nk, nv;
      size, sizeKeys, sizeValues := maxSz, sizeK, sizeV;
      return Pass;
    }
  }

  // ---------------------------------------------------------------------
  // Properties of the tables
  // ---------------------------------------------------------------------

  /** Every spec lands in exactly one of the two tables, and their sizes add up to the total. */
  lemma {:induction false} SelectPartition(es: seq<Entry>)
    requires AllOk(es)
    ensures |Select(es, true)| + |Select(es, false)| == |es|
    ensures SumSizes(Select(es, true)) + SumSizes(Select(es, false)) == SumSizes(AllFields(es))
  {
    if es != [] {
      var init := es[..|es| - 1];
      SelectPartition(init);
      var e := FieldOf(es[|es| - 1]);
      SumSizesAppend(Select(init, true), if es[|es| - 1].isKey then [e] else []);
      SumSizesAppend(Select(init, false), if es[|es| - 1].isKey then [] else [e]);
      assert AllFields(es)[..|es| - 1] == AllFields(init);
    }
  }

  lemma {:induction false} SumSizesAppend(fs: seq<Field>, gs: seq<Field>)
    requires |gs| <= 1
    ensures SumSizes(fs + gs) == SumSizes(fs) + SumSizes(gs)
  {
    if gs != [] {
      assert (fs + gs)[..|fs + gs| - 1] == fs;
      assert gs[..0] == [];
    } else {
      assert fs + gs == fs;
    }
  }

  /** Every field ends at or before the record size, so it lies inside each record. */
  lemma {:induction false} MaxEndBounds(fs: seq<Field>, i: nat)
    requires i < |fs|
    ensures fs[i].offset + fs[i].size <= MaxEnd(fs)
  {
    if i < |fs| - 1 {
      MaxEndBounds(fs[..|fs| - 1], i);
    }
  }

  /** Fields laid out one after another from offset 0, as both builders lay them out. */
  predicate Contiguous(fs: seq<Field>)
  {
    forall i :: 0 <= i < |fs| ==> fs[i].offset == SumSizes(fs[..i])
  }

  /** For a contiguous layout the record size is exactly the sum of all field sizes. */
  lemma {:induction false} ContiguousMaxEnd(fs: seq<Field>)
    requires Contiguous(fs)
    ensures MaxEnd(fs) == SumSizes(fs)
  {
    if fs != [] {
      var init := fs[..|fs| - 1];
      forall i | 0 <= i < |init|
        ensures init[i].offset == SumSizes(init[..i])
      {
        assert init[..i] == fs[..i];
      }
      ContiguousMaxEnd(init);
      assert fs[|fs| - 1].offset == SumSizes(init);
    }
  }

  /**
   * So for specs from a builder the size assertion of `initialize` holds:
   * record size = size of the keys + size of the values.
   */
  lemma ContiguousRecordSize(es: seq<Entry>)
    requires AllOk(es) && Contiguous(AllFields(es))
    ensures MaxEnd(AllFields(es)) == SumSizes(Select(es, true)) + SumSizes(Select(es, false))
    ensures SizeCovers(es)
  {
    SelectPartition(es);
    ContiguousMaxEnd(AllFields(es));
  }

  // ---------------------------------------------------------------------
  // Field-index arguments
  // ---------------------------------------------------------------------

  /** `(int)FIX2UINT(e)`: an unsigned 32-bit value reinterpreted as a signed int. */
  function ToInt32(v: nat): int
    requires v < 0x1_0000_0000
  {
    if v < 0x8000_0000 then v else v - 0x1_0000_0000
  }

  /** `conv_field_arr`: nil becomes -1, an index becomes itself (as a C int). */
  method ConvFieldArr(arr: seq<Option<nat>>, fieldArr: array<int>)
    requires fieldArr.Length == |arr|
    requires forall i :: 0 <= i < |arr| && arr[i].Some? ==> arr[i].value < 0x1_0000_0000
    modifies fieldArr
    ensures forall i :: 0 <= i < |arr| ==>
      fieldArr[i] == if arr[i].None? then -1 else ToInt32(arr[i].value)
  {
    var i := 0;
    while i < |arr|
      invariant 0 <= i <= |arr|
      invariant forall j :: 0 <= j < i ==> fieldArr[j] == if arr[j].None? then -1 else ToInt32(arr[j].value)
    {
      fieldArr[i] := if arr[i].None? then -1 else ToInt32(arr[i].value);
      i := i + 1;
    }
  }

  /** An index that fits an int and names an existing field converts to itself, never to the nil marker -1. */
  lemma ConvertedIndex(v: nat, numFields: nat)
    requires v < numFields <= 0x8000_0000
    ensures ToInt32(v) == v && ToInt32(v) != -1
  {
  }

  /** `validate_field_arr`: ArgumentError for the first non-nil entry that names no field. */
  method ValidateFieldArr(m: ExtModel, arr: seq<Option<nat>>) returns (r: Outcome)
    ensures r.Pass? <==> forall i :: 0 <= i < |arr| && arr[i].Some? ==> m.GetField(arr[i].value).Some?
    ensures r.Fail? ==> r.error == ArgumentError
  {
    var i := 0;
    while i < |arr|
      invariant 0 <= i <= |arr|
      invariant forall j :: 0 <= j < i && arr[j].Some? ==> m.GetField(arr[j].value).Some?
    {
      if arr[i].Some? && m.GetField(arr[i].value).None? {
        return Fail(ArgumentError);
      }
      i := i + 1;
    }
    return Pass;
  }

  // ---------------------------------------------------------------------
  // The record array
  // ---------------------------------------------------------------------

  /** A record: the data bytes of one instance. */
  type Record = seq<Byte>

  /** The outcome of `parse_line` on one line: the record, the token count and the error code. */
  datatype Parsed = Parsed(rec: Record, numTokens: int, parseError: int)

  /** The settings `bulk_parse_line` works with. */
  datatype Filter = Filter(rejectTokenParseError: bool, rejectInvalidNumTokens: bool, minNumTokens: int, maxNumTokens: int)

  /** The token count is out of bounds: below the minimum, or above a positive maximum. */
  predicate BadCount(f: Filter, numTokens: int)
  {
    numTokens < f.minNumTokens || (f.maxNumTokens > 0 && numTokens > f.maxNumTokens)
  }

  /**
   * The Ruby block as `bulk_parse_line` yields to it: given the position of
   * the line among the lines read (so the block may answer differently from
   * call to call) and the count, the error and the record it is handed, its
   * answer (truthy or not) and the record as the block leaves it.  The
   * record handed over is the one pushed afterwards, so an edit the block
   * makes is what is stored.
   */
  type Block = (nat, Parsed) -> (bool, Record)

  /** The block's answer for the line at position n, as `bulk_parse_line_yield` passes it on. */
  function Consult(block: Block, n: nat, p: Parsed): (r: Option<Record>)
    ensures r.Some? <==> block(n, p).0
    ensures r.Some? ==> r.value == block(n, p).1
  {
    var answer := block(n, p);
    if answer.0 then Some(answer.1) else None
  }

  /**
   * What becomes of the line at position n, parsed as p: a parse error or a
   * bad token count rejects it (None) when the matching reject flag is set,
   * otherwise the block decides and, when it accepts, the record as it left
   * it is pushed; every other line pushes its parsed record.
   */
  function Verdict(f: Filter, block: Block, n: nat, p: Parsed): (r: Option<Record>)
    ensures p.parseError == 0 && !BadCount(f, p.numTokens) ==> r == Some(p.rec)
    ensures p.parseError != 0 ==> (r.Some? <==> !f.rejectTokenParseError && block(n, p).0)
    ensures p.parseError == 0 && BadCount(f, p.numTokens) ==> (r.Some? <==> !f.rejectInvalidNumTokens && block(n, p).0)
    ensures (p.parseError != 0 || BadCount(f, p.numTokens)) && r.Some? ==> r.value == block(n, p).1
  {
    if p.parseError != 0 then (if f.rejectTokenParseError then None else Consult(block, n, p))
    else if BadCount(f, p.numTokens) then (if f.rejectInvalidNumTokens then None else Consult(block, n, p))
    else Some(p.rec)
  }

  /** The records a verdict pushes: none, or the one it names. */
  function Pushed(v: Option<Record>): (r: seq<Record>)
    ensures |r| <= 1 && (r == [] <==> v.None?)
  {
    if v.Some? then [v.value] else []
  }

  /**
   * The run of `bulk_parse_line` over the lines still to be read, the first
   * of them at position `at`, with `room` free slots: the records pushed,
   * the lines read and whether it stopped because the array was full.
   */
  function Ingest(room: nat, lines: seq<string>, at: nat, parse: string -> Parsed, f: Filter, block: Block)
    : (r: (seq<Record>, nat, bool))
    ensures |r.0| <= room && r.1 <= |lines|
  {
    if room == 0 then ([], 0, true)
    else if lines == [] then ([], 0, false)
    else
      var v := Verdict(f, block, at, parse(lines[0]));
      var rest := Ingest(if v.Some? then room - 1 else room, lines[1..], at + 1, parse, f, block);
      (Pushed(v) + rest.0, rest.1 + 1, rest.2)
  }

  /** The records of the accepted lines among `lines` (the first at position `at`), in order, each as its verdict leaves it. */
  function AcceptedRecords(lines: seq<string>, at: nat, parse: string -> Parsed, f: Filter, block: Block): seq<Record>
  {
    if lines == [] then []
    else Pushed(Verdict(f, block, at, parse(lines[0]))) + AcceptedRecords(lines[1..], at + 1, parse, f, block)
  }

  /**
   * `bulk_parse_line` reads lines until the array is full (true) or the
   * input ends (false); what it pushes is exactly the accepted lines among
   * those read, and when it stops at the end of input it has read every line.
   */
  lemma {:induction false} IngestFilters(room: nat, lines: seq<string>, at: nat, parse: string -> Parsed, f: Filter, block: Block)
    ensures Ingest(room, lines, at, parse, f, block).0 == AcceptedRecords(lines[..Ingest(room, lines, at, parse, f, block).1], at, parse, f, block)
    ensures Ingest(room, lines, at, parse, f, block).2 ==> |Ingest(room, lines, at, parse, f, block).0| == room
    ensures !Ingest(room, lines, at, parse, f, block).2 ==> Ingest(room, lines, at, parse, f, block).1 == |lines|
  {
    if room != 0 && lines != [] {
      var v := Verdict(f, block, at, parse(lines[0]));
      var room' := if v.Some? then room - 1 else room;
      IngestFilters(room', lines[1..], at + 1, parse, f, block);
      var n := Ingest(room', lines[1..], at + 1, parse, f, block).1;
      assert lines[..n + 1][1..] == lines[1..][..n];
    }
  }

  /** The whole run is what was pushed so far followed by the run over the lines still to be read. */
  predicate Continues(total: (seq<Record>, nat, bool), pushed: seq<Record>, read: nat, run: (seq<Record>, nat, bool))
  {
    total.0 == pushed + run.0 && total.1 == read + run.1 && total.2 == run.2
  }

  lemma ContinuesStep(total: (seq<Record>, nat, bool), pushed: seq<Record>, pushed': seq<Record>, read: nat,
                      run: (seq<Record>, nat, bool), run': (seq<Record>, nat, bool), head: seq<Record>)
    requires Continues(total, pushed, read, run)
    requires pushed' == pushed + head && run == (head + run'.0, run'.1 + 1, run'.2)
    ensures Continues(total, pushed', read + 1, run')
  {
    assert pushed + (head + run'.0) == (pushed + head) + run'.0;
  }

  /**
   * The rejection tests of `bulk_parse_line` for the parsed line at
   * position n, consulting the block only when a test fails: the record to
   * push, or None.
   */
  method Decide(f: Filter, block: Block, n: nat, p: Parsed) returns (v: Option<Record>)
    ensures v == Verdict(f, block, n, p)
  {
    v := Some(p.rec);
    if p.parseError != 0 {
      if f.rejectTokenParseError {
        v := None;
      } else {
        var answer := block(n, p);
        v := if answer.0 then Some(answer.1) else None;
      }
    } else if BadCount(f, p.numTokens) {
      if f.rejectInvalidNumTokens {
        v := None;
      } else {
        var answer := block(n, p);
        v := if answer.0 then Some(answer.1) else None;
      }
    }
  }

  /** One line read with room left: what its verdict pushes comes before the rest of the run. */
  lemma IngestStep(room: nat, lines: seq<string>, at: nat, parse: string -> Parsed, f: Filter, block: Block,
                   head: seq<Record>, run': (seq<Record>, nat, bool))
    requires room > 0 && lines != []
    requires head == Pushed(Verdict(f, block, at, parse(lines[0])))
    requires run' == Ingest(if head != [] then room - 1 else room, lines[1..], at + 1, parse, f, block)
    ensures Ingest(room, lines, at, parse, f, block) == (head + run'.0, run'.1 + 1, run'.2)
  {
  }

  /** With no room left, or no line left, the run reads nothing more; it counts as full only in the first case. */
  lemma IngestStops(room: nat, lines: seq<string>, at: nat, parse: string -> Parsed, f: Filter, block: Block)
    requires room == 0 || lines == []
    ensures Ingest(room, lines, at, parse, f, block) == ([], 0, room == 0)
  {
  }

  /**
   * What the scratch record of `update_each` holds after the loop over
   * `es`: the block's result for the last matching record, or what it held
   * before when none matches.
   */
  function LastUpdate(es: seq<Record>, matches: Record -> bool, block: Record -> Record, init: Record): Record
    decreases |es|
  {
    if es == [] then init
    else if matches(es[|es| - 1]) then block(es[|es| - 1])
    else LastUpdate(es[..|es| - 1], matches, block, init)
  }

  /**
   * After `update_each` the scratch record holds the block's result for the
   * last matching record, and is untouched when no record matches.
   */
  lemma {:induction false} LastUpdateIs(es: seq<Record>, matches: Record -> bool, block: Record -> Record, init: Record)
    ensures (forall j :: 0 <= j < |es| ==> !matches(es[j])) ==> LastUpdate(es, matches, block, init) == init
    ensures forall k :: 0 <= k < |es| && matches(es[k]) && (forall j :: k < j < |es| ==> !matches(es[j])) ==>
      LastUpdate(es, matches, block, init) == block(es[k])
    decreases |es|
  {
    if es != [] {
      var front := es[..|es| - 1];
      LastUpdateIs(front, matches, block, init);
      assert forall j :: 0 <= j < |front| ==> front[j] == es[j];
    }
  }

  /** A record array of fixed capacity; each record has the model's size. */
  class InstanceArray {
    const model: ExtModel
    const capacity: nat
    var entries: seq<Record>

    constructor(model: ExtModel, capacity: nat)
      ensures this.model == model && this.capacity == capacity && entries == []
    {
      this.model := model;
      this.capacity := capacity;
      entries := [];
    }

    predicate Full()
      reads this
    {
      |entries| >= capacity
    }

    /**
     * `RecordModelInstanceArray#push`: ArgumentError on a model mismatch or
     * when the array is full; otherwise the record is appended.
     */
    method Push(recModel: ExtModel, rec: Record) returns (r: Outcome)
      modifies this
      ensures r.Pass? <==> recModel == model && old(|entries|) < capacity
      ensures r.Fail? ==> r.error == ArgumentError && entries == old(entries)
      ensures r.Pass? ==> entries == old(entries) + [rec]
    {
      if recModel != model {
        return Fail(ArgumentError);
      }
      if Full() {
        return Fail(ArgumentError);
      }
      entries := entries + [rec];
      return Pass;
    }

    /**
     * The body of the `bulk_parse_line` loop for the line at position n:
     * parse it, test it and push what its verdict names.
     */
    method ParseAndPush(line: string, n: nat, parse: string -> Parsed, f: Filter, block: Block) returns (v: Option<Record>)
      modifies this
      ensures v == Verdict(f, block, n, parse(line))
      ensures entries == old(entries) + Pushed(v)
    {
      var p := parse(line);
      v := Decide(f, block, n, p);
      if v.Some? {
        entries := entries + [v.value];
      }
    }

    /**
     * Line i read with room left: what its verdict pushes is pushed, and the
     * run over the lines after it continues what was pushed before.
     */
    method IngestLine(lines: seq<string>, i: nat, parse: string -> Parsed, f: Filter, block: Block,
                      ghost base: seq<Record>, ghost total: (seq<Record>, nat, bool), ghost pushed: seq<Record>)
      returns (ghost pushed': seq<Record>, ghost run': (seq<Record>, nat, bool))
      requires i < |lines| && |entries| < capacity && entries == base + pushed
      requires Continues(total, pushed, i, Ingest(capacity - |entries|, lines[i..], i, parse, f, block))
      modifies this
      ensures entries == base + pushed' && |entries| <= capacity
      ensures run' == Ingest(capacity - |entries|, lines[i + 1..], i + 1, parse, f, block)
      ensures Continues(total, pushed', i + 1, run')
    {
      ghost var room := capacity - |entries|;
      ghost var rest := lines[i..];
      ghost var run := Ingest(room, rest, i, parse, f, block);
      assert rest[1..] == lines[i + 1..];
      var v := ParseAndPush(lines[i], i, parse, f, block);
      ghost var head := Pushed(v);
      run' := Ingest(capacity - |entries|, lines[i + 1..], i + 1, parse, f, block);
      IngestStep(room, rest, i, parse, f, block, head, run');
      ContinuesStep(total, pushed, pushed + head, i, run, run', head);
      pushed' := pushed + head;
    }

    /**
     * `bulk_parse_line`: the line source yields `lines` in order; returns
     * whether the array became full, and the number of lines read.
     */
    method BulkParseLine(lines: seq<string>, parse: string -> Parsed, f: Filter, block: Block)
      returns (full: bool, linesRead: nat)
      requires |entries| <= capacity
      modifies this
      ensures var run := Ingest(capacity - old(|entries|), lines, 0, parse, f, block);
        entries == old(entries) + run.0 && linesRead == run.1 && full == run.2
    {
      ghost var base := entries;
      ghost var total := Ingest(capacity - |entries|, lines, 0, parse, f, block);
      ghost var run := total;
      ghost var pushed: seq<Record> := [];
      linesRead := 0;
      assert lines[linesRead..] == lines;
      while !Full() && linesRead < |lines|
        invariant linesRead <= |lines| && |entries| <= capacity
        invariant entries == base + pushed
        invariant run == Ingest(capacity - |entries|, lines[linesRead..], linesRead, parse, f, block)
        invariant Continues(total, pushed, linesRead, run)
        decreases |lines| - linesRead
      {
        pushed, run := IngestLine(lines, linesRead, parse, f, block, base, total, pushed);
        linesRead := linesRead + 1;
      }
      IngestStops(capacity - |entries|, lines[linesRead..], linesRead, parse, f, block);
      full := Full();
    }

    /**
     * `bulk_set`: ArgumentError for an index naming no field; otherwise every
     * record gets the field's encoding of the value (`encoded`) written over
     * the field's bytes.
     */
    method BulkSet(fieldIdx: nat, encoded: seq<Byte>) returns (r: Outcome)
      requires forall i :: 0 <= i < |entries| ==> |entries[i]| == model.size
      requires model.GetField(fieldIdx).Some? ==>
        |encoded| == model.GetField(fieldIdx).value.size &&
        model.GetField(fieldIdx).value.offset + |encoded| <= model.size
      modifies this
      ensures r.Fail? <==> model.GetField(fieldIdx).None?
      ensures r.Fail? ==> r.error == ArgumentError && entries == old(entries)
      ensures r.Pass? ==> |entries| == old(|entries|) && forall i :: 0 <= i < |entries| ==>
        entries[i] == Overwrite(old(entries[i]), model.GetField(fieldIdx).value.offset, encoded)
    {
      var field := model.GetField(fieldIdx);
      if field.None? {
        return Fail(ArgumentError);
      }
      var i := 0;
      while i < |entries|
        invariant 0 <= i <= |entries| == old(|entries|)
        invariant forall j :: 0 <= j < i ==> entries[j] == Overwrite(old(entries[j]), field.value.offset, encoded)
        invariant forall j :: i <= j < |entries| ==> entries[j] == old(entries[j])
      {
        entries := entries[i := Overwrite(entries[i], field.value.offset, encoded)];
        i := i + 1;
      }
      assert old(entries)[..i] == old(entries);
      return Pass;
    }

    /**
     * `update_each`: ArgumentError on a model mismatch or an index naming no
     * field; otherwise each record whose field equals the value (`matches`)
     * is copied into `rec`, handed to the block (`block`), and copied back.
     * The other records are unchanged.
     */
    method UpdateEach(fieldIdx: nat, matches: Record -> bool, rec: Buffer, block: Record -> Record) returns (r: Outcome)
      modifies this, rec
      ensures r.Pass? <==> rec.model == model && model.GetField(fieldIdx).Some?
      ensures r.Fail? ==> r.error == ArgumentError && entries == old(entries) && rec.data == old(rec.data)
      ensures r.Pass? ==> |entries| == old(|entries|) && forall i :: 0 <= i < |entries| ==>
        entries[i] == if matches(old(entries[i])) then block(old(entries[i])) else old(entries[i])
      ensures r.Pass? ==> rec.data == LastUpdate(old(entries), matches, block, old(rec.data))
    {
      if rec.model != model {
        return Fail(ArgumentError);
      }
      if model.GetField(fieldIdx).None? {
        return Fail(ArgumentError);
      }
      var i := 0;
      while i < |entries|
        invariant 0 <= i <= |entries| == old(|entries|)
        invariant forall j :: 0 <= j < i ==>
          entries[j] == if matches(old(entries[j])) then block(old(entries[j])) else old(entries[j])
        invariant forall j :: i <= j < |entries| ==> entries[j] == old(entries[j])
        invariant rec.data == LastUpdate(old(entries)[..i], matches, block, old(rec.data))
      {
        assert old(entries)[..i + 1][..i] == old(entries)[..i];
        if matches(entries[i]) {
          rec.data := entries[i];
          rec.data := block(rec.data);
          entries := entries[i := rec.data];
        }
        i := i + 1;
      }
      assert old(entries)[..i] == old(entries);
      return Pass;
    }
  }

  /** A `RecordModelInstance` handed to the block: its model and its data bytes. */
  class Buffer {
    const model: ExtModel
    var data: Record

    constructor(model: ExtModel, data: Record)
      ensures this.model == model && this.data == data
    {
      this.model := model;
      this.data := data;
    }
  }
}
