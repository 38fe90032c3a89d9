/**
 * The `MMDB` column store of ext/MMDB/MMDB.cc: one slices file (the length
 * of each appended batch as a uint32), one data file holding the value
 * fields of every record and one file per key field, all `MmapFile`s.
 * `_put_bulk` appends a batch in sorted order to every column.
 *
 * The schema is an abstract list of key and value fields (offset and size
 * in the record); copying a field out of a record copies its bytes.  The
 * file system is a parameter: what `open(2)`/`fstat` yield for each name
 * (None when they fail) and whether truncating and mapping it succeed.
 */
module ColumnStore {
  import opened Wrappers
  import opened Bytes
  import opened FieldTypes
  import opened Decimal
  import opened MappedFile

  /** A field of the record: where its bytes lie. */
  datatype Col = Col(offset: nat, size: nat)

  /** The schema the store needs: the key fields, the value fields and their total size. */
  datatype Schema = Schema(keys: seq<Col>, values: seq<Col>, sizeValues: nat)

  type Record = seq<Byte>

  function Width(cols: seq<Col>): nat
  {
    if cols == [] then 0 else Width(cols[..|cols| - 1]) + cols[|cols| - 1].size
  }

  /** `size_values` is the total width of the value fields. */
  predicate WellFormed(s: Schema)
  {
    s.sizeValues == Width(s.values)
  }

  /** Every field lies inside the record. */
  predicate FitsAll(cols: seq<Col>, rec: Record)
  {
    forall k :: 0 <= k < |cols| ==> Fits(cols[k], rec)
  }

  /** The field lies inside the record. */
  predicate Fits(c: Col, rec: Record)
  {
    c.offset + c.size <= |rec|
  }

  function FieldBytes(rec: Record, c: Col): seq<Byte>
    requires Fits(c, rec)
  {
    rec[c.offset..c.offset + c.size]
  }

  /** The bytes of the fields `cols` of one record, one after another. */
  function Entry(cols: seq<Col>, rec: Record): (r: seq<Byte>)
    requires FitsAll(cols, rec)
    ensures |r| == Width(cols)
  {
    if cols == [] then []
    else Entry(cols[..|cols| - 1], rec) + FieldBytes(rec, cols[|cols| - 1])
  }

  /** A column: the entries of `recs` in order. */
  function Column(cols: seq<Col>, recs: seq<Record>): seq<Byte>
    requires forall i :: 0 <= i < |recs| ==> FitsAll(cols, recs[i])
  {
    if recs == [] then [] else Column(cols, recs[..|recs| - 1]) + Entry(cols, recs[|recs| - 1])
  }

  /**
   * The i-th entry of a column is the i-th record's fields: every column
   * holds exactly one fixed-width entry per record, so position i across
   * all the column files describes the same record.
   */
  lemma {:induction false} ColumnEntry(cols: seq<Col>, recs: seq<Record>, i: nat)
    requires forall j :: 0 <= j < |recs| ==> FitsAll(cols, recs[j])
    requires i < |recs|
    ensures Span(i + 1, Width(cols)) <= |Column(cols, recs)|
    ensures Column(cols, recs)[Span(i, Width(cols))..Span(i + 1, Width(cols))] == Entry(cols, recs[i])
  {
    var n := |recs| - 1;
    var init := recs[..n];
    ColumnSnoc(cols, recs);
    if i < n {
      ColumnEntry(cols, init, i);
      ColumnEntryEarlier(cols, init, recs[n], i);
    } else {
      ColumnEntryLast(cols, init, recs[n]);
    }
  }

  /** A column is the column of all records but the last, followed by the last one's entry. */
  lemma ColumnSnoc(cols: seq<Col>, recs: seq<Record>)
    requires forall j :: 0 <= j < |recs| ==> FitsAll(cols, recs[j])
    requires recs != []
    ensures Column(cols, recs) == Column(cols, recs[..|recs| - 1]) + Entry(cols, recs[|recs| - 1])
  {
  }

  /** Appending an entry leaves the earlier entries where they were. */
  lemma ColumnEntryEarlier(cols: seq<Col>, init: seq<Record>, rec: Record, i: nat)
    requires forall j :: 0 <= j < |init| ==> FitsAll(cols, init[j])
    requires FitsAll(cols, rec) && i < |init|
    requires Span(i + 1, Width(cols)) <= |Column(cols, init)|
    requires Column(cols, init)[Span(i, Width(cols))..Span(i + 1, Width(cols))] == Entry(cols, init[i])
    ensures Span(i + 1, Width(cols)) <= |Column(cols, init) + Entry(cols, rec)|
    ensures (Column(cols, init) + Entry(cols, rec))[Span(i, Width(cols))..Span(i + 1, Width(cols))] == Entry(cols, init[i])
  {
    SpanMonotone(i, i + 1, Width(cols));
    SliceOfPrefix(Column(cols, init), Entry(cols, rec), Span(i, Width(cols)), Span(i + 1, Width(cols)));
  }

  /** The appended entry sits right after the earlier ones. */
  lemma ColumnEntryLast(cols: seq<Col>, init: seq<Record>, rec: Record)
    requires forall j :: 0 <= j < |init| ==> FitsAll(cols, init[j])
    requires FitsAll(cols, rec)
    ensures Span(|init| + 1, Width(cols)) <= |Column(cols, init) + Entry(cols, rec)|
    ensures (Column(cols, init) + Entry(cols, rec))[Span(|init|, Width(cols))..Span(|init| + 1, Width(cols))] == Entry(cols, rec)
  {
    ColumnLength(cols, init);
    SliceOfSuffix(Column(cols, init), Entry(cols, rec));
  }

  lemma {:induction false} SpanMonotone(i: nat, j: nat, w: nat)
    requires i <= j
    ensures Span(i, w) <= Span(j, w)
    decreases j
  {
    if i < j {
      SpanMonotone(i, j - 1, w);
    }
  }

  lemma SliceOfPrefix(a: seq<Byte>, b: seq<Byte>, lo: nat, hi: nat)
    requires lo <= hi <= |a|
    ensures (a + b)[lo..hi] == a[lo..hi]
  {
  }

  lemma SliceOfSuffix(a: seq<Byte>, b: seq<Byte>)
    ensures (a + b)[|a|..|a| + |b|] == b
  {
  }

  /** The column of two batches is the column of the first followed by that of the second. */
  lemma {:induction false} ColumnSplit(cols: seq<Col>, a: seq<Record>, b: seq<Record>)
    requires forall j :: 0 <= j < |a| ==> FitsAll(cols, a[j])
    requires forall j :: 0 <= j < |b| ==> FitsAll(cols, b[j])
    ensures forall j :: 0 <= j < |a + b| ==> FitsAll(cols, (a + b)[j])
    ensures Column(cols, a + b) == Column(cols, a) + Column(cols, b)
    decreases |b|
  {
    if b == [] {
      assert a + b == a;
    } else {
      var n := |b| - 1;
      ColumnSplit(cols, a, b[..n]);
      assert (a + b)[..|a + b| - 1] == a + b[..n];
      Assoc(Column(cols, a), Column(cols, b[..n]), Entry(cols, b[n]));
    }
  }

  /** A column over one more record ends in that record's entry. */
  lemma ColumnStep(cols: seq<Col>, recs: seq<Record>, i: nat)
    requires forall j :: 0 <= j < |recs| ==> FitsAll(cols, recs[j])
    requires i < |recs|
    ensures Column(cols, recs[..i + 1]) == Column(cols, recs[..i]) + Entry(cols, recs[i])
  {
    assert recs[..i + 1][..i] == recs[..i];
  }

  lemma Assoc(a: seq<Byte>, b: seq<Byte>, c: seq<Byte>)
    ensures (a + b) + c == a + (b + c)
  {
  }

  /** The bytes `i` entries of `w` bytes take: where entry i of a column starts, and a file's length for `i` records. */
  function Span(i: nat, w: nat): nat
  {
    if i == 0 then 0 else Span(i - 1, w) + w
  }

  /** That is `i * w`, the product the source computes. */
  lemma {:induction false} SpanIsProduct(i: nat, w: nat)
    ensures Span(i, w) == i * w
  {
    if i > 0 {
      SpanIsProduct(i - 1, w);
      assert (i - 1) * w + w == i * w;
    }
  }

  /** A column of n records is n entries long. */
  lemma {:induction false} ColumnLength(cols: seq<Col>, recs: seq<Record>)
    requires forall j :: 0 <= j < |recs| ==> FitsAll(cols, recs[j])
    ensures |Column(cols, recs)| == Span(|recs|, Width(cols))
  {
    if recs != [] {
      ColumnLength(cols, recs[..|recs| - 1]);
    }
  }

  /** The slice length as `*(uint32_t*) = n` stores it: truncated to 32 bits, little-endian. */
  function SliceLength(n: nat): seq<Byte>
  {
    LEBytes(n % 0x1_0000_0000, 4)
  }

  function SlicesName(prefix: string): string { prefix + "slices_4" }
  function DataName(prefix: string, s: Schema): string { prefix + "data_" + ToDecimal(s.sizeValues) }
  function KeyName(prefix: string, i: nat, c: Col): string { prefix + "k" + ToDecimal(i) + "_" + ToDecimal(c.size) }

  /**
   * The file system as a parameter: the file's bytes (None if it cannot be
   * opened), whether it can be truncated when open for writing, and
   * whether it can be mapped.
   */
  datatype FileSystem = FileSystem(disk: string -> Option<seq<Byte>>, truncatable: string -> bool, mappable: string -> bool)

  /**
   * `MmapFile::open(name, length, ro)` succeeds on a fresh file object,
   * with the truncation made only for a writable file (`OpenFixed`).
   */
  predicate Opens(fs: FileSystem, name: string, length: nat, ro: bool)
  {
    fs.disk(name).Some? && length <= |fs.disk(name).value| && (ro || fs.truncatable(name)) && fs.mappable(name)
  }

  /** Every file `open` needs opens. */
  predicate AllOpen(fs: FileSystem, prefix: string, s: Schema, numSlices: nat, numRecords: nat, ro: bool)
  {
    && Opens(fs, SlicesName(prefix), 4 * numSlices, ro)
    && Opens(fs, DataName(prefix, s), Span(numRecords, s.sizeValues), ro)
    && forall i :: 0 <= i < |s.keys| ==> Opens(fs, KeyName(prefix, i, s.keys[i]), Span(numRecords, s.keys[i].size), ro)
  }

  /** A file that is open, mapped and in the given access mode. */
  predicate Usable(f: MmapFile, ro: bool)
    reads f
  {
    f.Valid() && f.IsOpen() && f.readonly == ro
  }

  class MMDB {
    var schema: Option<Schema>
    var slicesFile: MmapFile?
    var dataFile: MmapFile?
    var keyFiles: seq<MmapFile>
    var numKeys: nat
    var readonly: bool
    var numSlices: nat
    var numRecords: nat

    /** The state `close` leaves (and a new store starts in). */
    predicate Closed()
      reads this
    {
      schema.None? && slicesFile == null && dataFile == null && keyFiles == [] &&
      numKeys == 0 && readonly && numSlices == 0 && numRecords == 0
    }

    /** An open store: every file open and mapped, all distinct, with the store's access mode. */
    predicate IsOpen()
      reads this, slicesFile, dataFile, keyFiles
    {
      && schema.Some? && slicesFile != null && dataFile != null
      && |keyFiles| == |schema.value.keys| == numKeys
      && slicesFile != dataFile && slicesFile !in keyFiles && dataFile !in keyFiles
      && (forall i, j :: 0 <= i < j < |keyFiles| ==> keyFiles[i] != keyFiles[j])
      && Usable(slicesFile, readonly) && Usable(dataFile, readonly)
      && (forall i :: 0 <= i < |keyFiles| ==> Usable(keyFiles[i], readonly))
    }

    constructor()
      ensures Closed()
    {
      schema := None;
      slicesFile, dataFile := null, null;
      keyFiles := [];
      numKeys := 0;
      readonly := true;
      numSlices, numRecords := 0, 0;
    }

    /**
     * `close`: closes and drops every file, forgets the schema and resets the
     * counters and the access mode.
     */
    method Close()
      modifies this, slicesFile, dataFile, keyFiles
      ensures Closed()
      ensures old(slicesFile) != null ==> !old(slicesFile).hasFh && !old(slicesFile).hasPtr
      ensures old(dataFile) != null ==> !old(dataFile).hasFh && !old(dataFile).hasPtr
      ensures forall i :: 0 <= i < |old(keyFiles)| ==> !old(keyFiles)[i].hasFh && !old(keyFiles)[i].hasPtr
    {
      schema := None;
      if slicesFile != null {
        slicesFile.Close();
        slicesFile := null;
      }
      if dataFile != null {
        dataFile.Close();
        dataFile := null;
      }
      var i := 0;
      while i < |keyFiles|
        invariant 0 <= i <= |keyFiles| && keyFiles == old(keyFiles)
        invariant schema.None? && slicesFile == null && dataFile == null
        invariant forall j :: 0 <= j < i ==> !keyFiles[j].hasFh && !keyFiles[j].hasPtr
        invariant old(slicesFile) != null ==> !old(slicesFile).hasFh && !old(slicesFile).hasPtr
        invariant old(dataFile) != null ==> !old(dataFile).hasFh && !old(dataFile).hasPtr
      {
        keyFiles[i].Close();
        i := i + 1;
      }
      keyFiles := [];
      numKeys := 0;
      readonly := true;
      numSlices, numRecords := 0, 0;
    }

    /**
     * `open`: records the counters and the access mode, then opens the
     * slices file, the data file and one file per key, each with the length
     * its counter implies.  The first file that fails makes it `close`
     * everything and fail.
     */
    method Open(s: Schema, prefix: string, nSlices: nat, nRecords: nat, ro: bool, fs: FileSystem) returns (ok: bool)
      requires Closed() && |s.keys| > 0
      modifies this
      ensures ok <==> AllOpen(fs, prefix, s, nSlices, nRecords, ro)
      ensures !ok ==> Closed()
      ensures ok ==> IsOpen() && schema == Some(s) && readonly == ro
      ensures ok ==> numSlices == nSlices && numRecords == nRecords && fresh(slicesFile) && fresh(dataFile)
      ensures ok ==> forall i :: 0 <= i < |keyFiles| ==> fresh(keyFiles[i])
      ensures ok ==> slicesFile.Contents() == fs.disk(SlicesName(prefix)).value[..4 * nSlices]
      ensures ok ==> dataFile.Contents() == fs.disk(DataName(prefix, s)).value[..Span(nRecords, s.sizeValues)]
      ensures ok ==> forall i :: 0 <= i < |keyFiles| ==> KeyOpened(keyFiles[i], fs, prefix, s, i, nRecords, ro)
    {
      numSlices, numRecords := nSlices, nRecords;
      readonly := ro;
      schema := Some(s);
      numKeys := |s.keys|;

      slicesFile, ok := OpenNamed(SlicesName(prefix), 4 * nSlices, ro, fs);
      if !ok {
        Close();
        return false;
      }
      dataFile, ok := OpenNamed(DataName(prefix, s), Span(nRecords, s.sizeValues), ro, fs);
      if !ok {
        Close();
        return false;
      }
      ok := OpenKeys(s, prefix, nRecords, fs);
      if !ok {
        Close();
        return false;
      }
      return true;
    }

    /** The key-file loop of `open`: file i gets `size_i * num_records` bytes in use; stops at the first failure. */
    method OpenKeys(s: Schema, prefix: string, nRecords: nat, fs: FileSystem) returns (ok: bool)
      requires schema == Some(s) && numKeys == |s.keys| && keyFiles == []
      requires slicesFile != null && dataFile != null && slicesFile != dataFile
      requires Usable(slicesFile, readonly) && Usable(dataFile, readonly)
      modifies this`keyFiles
      ensures ok <==> forall i :: 0 <= i < |s.keys| ==> Opens(fs, KeyName(prefix, i, s.keys[i]), Span(nRecords, s.keys[i].size), readonly)
      ensures forall i :: 0 <= i < |keyFiles| ==> fresh(keyFiles[i])
      ensures ok ==> IsOpen()
      ensures ok ==> forall i :: 0 <= i < |keyFiles| ==> KeyOpened(keyFiles[i], fs, prefix, s, i, nRecords, readonly)
    {
      var i := 0;
      while i < |s.keys|
        invariant 0 <= i <= |s.keys| && |keyFiles| == i
        invariant forall j :: 0 <= j < i ==> fresh(keyFiles[j])
        invariant forall a, b :: 0 <= a < b < |keyFiles| ==> keyFiles[a] != keyFiles[b]
        invariant forall j :: 0 <= j < i ==> Usable(keyFiles[j], readonly) && KeyOpened(keyFiles[j], fs, prefix, s, j, nRecords, readonly)
        invariant forall j :: 0 <= j < i ==> Opens(fs, KeyName(prefix, j, s.keys[j]), Span(nRecords, s.keys[j].size), readonly)
      {
        var kf;
        kf, ok := OpenNamed(KeyName(prefix, i, s.keys[i]), Span(nRecords, s.keys[i].size), readonly, fs);
        keyFiles := keyFiles + [kf];
        if !ok {
          return false;
        }
        i := i + 1;
      }
      return true;
    }

    /**
     * `_put_bulk`: the batch must use the store's schema and the store must
     * be writable; an empty batch changes nothing.  Otherwise the batch,
     * sorted (`sorted` is the sorted permutation of `entries`, in which the
     * verification pass asserts consecutive keys ascend under `cmp`), is
     * appended: its length to the slices file, then, record by record, its
     * value fields to the data file and key field k to key file k.  The
     * counters are not updated.
     */
    method PutBulk(arrSchema: Schema, entries: seq<Record>, sorted: seq<Record>, cmp: (Record, Record) -> int)
      requires IsOpen() && schema == Some(arrSchema) && !readonly
      requires forall r :: r in entries ==> FitsAll(arrSchema.keys, r) && FitsAll(arrSchema.values, r)
      requires multiset(sorted) == multiset(entries)
      requires forall i :: 0 < i < |sorted| ==> cmp(sorted[i - 1], sorted[i]) <= 0
      modifies slicesFile, dataFile, keyFiles
      ensures IsOpen() && numSlices == old(numSlices) && numRecords == old(numRecords)
      ensures forall i :: 0 <= i < |sorted| ==> FitsAll(arrSchema.keys, sorted[i]) && FitsAll(arrSchema.values, sorted[i])
      ensures AllFit(arrSchema.keys, sorted)
      ensures slicesFile.Contents() == old(slicesFile.Contents()) + (if entries == [] then [] else SliceLength(|entries|))
      ensures dataFile.Contents() == old(dataFile.Contents()) + Column(arrSchema.values, sorted)
      ensures forall k :: 0 <= k < |keyFiles| ==>
        keyFiles[k].Contents() == old(keyFiles[k].Contents()) + KeyColumn(arrSchema.keys[k], sorted)
    {
      assert |sorted| == |multiset(sorted)| == |entries|;
      forall i | 0 <= i < |sorted|
        ensures FitsAll(arrSchema.keys, sorted[i]) && FitsAll(arrSchema.values, sorted[i])
      {
        assert sorted[i] in multiset(entries);
      }
      AllFitFromEach(arrSchema.keys, sorted);
      ghost var before := Snapshot(keyFiles);
      if |entries| == 0 {
        return;
      }
      var ok := slicesFile.Append(SliceLength(|entries|), true);
      AppendAll(arrSchema, sorted, before);
    }

    /** The record loop of `_put_bulk`: each record in turn goes to the data file and the key files. */
    method AppendAll(s: Schema, recs: seq<Record>, ghost before: seq<seq<Byte>>)
      requires IsOpen() && schema == Some(s) && !readonly
      requires forall j :: 0 <= j < |recs| ==> FitsAll(s.values, recs[j])
      requires AllFit(s.keys, recs) && KeysHold(keyFiles, before)
      modifies dataFile, keyFiles
      ensures IsOpen()
      ensures dataFile.Contents() == old(dataFile.Contents()) + Column(s.values, recs)
      ensures KeysHold(keyFiles, Grown(before, s.keys, recs))
    {
      ghost var d0 := dataFile.Contents();
      ghost var col: seq<Byte> := [];
      ghost var cur := before;
      assert recs[..0] == [] && d0 + [] == d0;
      GrownNothing(before, s.keys);
      var i := 0;
      while i < |recs|
        invariant 0 <= i <= |recs|
        invariant IsOpen()
        invariant col == Column(s.values, recs[..i]) && Holds(dataFile, d0 + col)
        invariant AllFit(s.keys, recs[..i]) && cur == Grown(before, s.keys, recs[..i])
        invariant KeysHold(keyFiles, cur)
      {
        GrownStep(before, s.keys, recs, i);
        ColumnStep(s.values, recs, i);
        AppendRecord(s, recs[i], d0 + col, cur);
        Assoc(d0, col, Entry(s.values, recs[i]));
        col := col + Entry(s.values, recs[i]);
        cur := Added(cur, s.keys, recs[i]);
        i := i + 1;
      }
      assert recs[..i] == recs;
    }

    /** One record of `_put_bulk`: its value fields to the data file, key field k to key file k. */
    method AppendRecord(s: Schema, rec: Record, ghost data: seq<Byte>, ghost cur: seq<seq<Byte>>)
      requires IsOpen() && schema == Some(s) && !readonly
      requires FitsAll(s.values, rec) && FitsAll(s.keys, rec)
      requires Holds(dataFile, data) && KeysHold(keyFiles, cur)
      modifies dataFile, keyFiles
      ensures IsOpen()
      ensures Holds(dataFile, data + Entry(s.values, rec))
      ensures KeysHold(keyFiles, Added(cur, s.keys, rec))
    {
      AppendFields(dataFile, s.values, rec);
      AppendKeys(s, rec, cur);
    }

    /** The inner key loop of `_put_bulk`: key field k of `rec` is appended to key file k. */
    method AppendKeys(s: Schema, rec: Record, ghost cur: seq<seq<Byte>>)
      requires IsOpen() && schema == Some(s) && !readonly && FitsAll(s.keys, rec)
      requires KeysHold(keyFiles, cur)
      modifies keyFiles
      ensures IsOpen()
      ensures KeysHold(keyFiles, Added(cur, s.keys, rec))
    {
      var k := 0;
      while k < |keyFiles|
        invariant 0 <= k <= |keyFiles| && IsOpen()
        invariant forall j :: 0 <= j < k ==> Holds(keyFiles[j], cur[j] + FieldBytes(rec, s.keys[j]))
        invariant forall j :: k <= j < |keyFiles| ==> Holds(keyFiles[j], cur[j])
        invariant dataFile == old(dataFile) && unchanged(dataFile)
      {
        var ok := keyFiles[k].Append(FieldBytes(rec, s.keys[k]), true);
        k := k + 1;
      }
    }
  }

  /** The file is mapped and its bytes in use are `bytes`. */
  predicate Holds(f: MmapFile, bytes: seq<Byte>)
    reads f
  {
    f.Valid() && f.hasPtr && f.Contents() == bytes
  }

  /** Each file of `files` holds the corresponding bytes of `contents`. */
  predicate KeysHold(files: seq<MmapFile>, contents: seq<seq<Byte>>)
    reads files
  {
    |files| == |contents| && forall k :: 0 <= k < |files| ==> Holds(files[k], contents[k])
  }

  /** The bytes in use of each file, in order. */
  ghost function Snapshot(files: seq<MmapFile>): (r: seq<seq<Byte>>)
    reads files
    requires forall k :: 0 <= k < |files| ==> files[k].Valid() && files[k].hasPtr
    ensures KeysHold(files, r)
  {
    if files == [] then [] else Snapshot(files[..|files| - 1]) + [files[|files| - 1].Contents()]
  }

  /** Key file k after one more record: its bytes followed by the record's key field k. */
  function Added(cur: seq<seq<Byte>>, keys: seq<Col>, rec: Record): (r: seq<seq<Byte>>)
    requires |cur| <= |keys| && FitsAll(keys, rec)
    ensures |r| == |cur| && forall k :: 0 <= k < |cur| ==> r[k] == cur[k] + FieldBytes(rec, keys[k])
  {
    seq(|cur|, k requires 0 <= k < |cur| => cur[k] + FieldBytes(rec, keys[k]))
  }

  /** Every field of `cols` lies inside every record of `recs`. */
  predicate AllFit(cols: seq<Col>, recs: seq<Record>)
  {
    forall k, j :: 0 <= k < |cols| && 0 <= j < |recs| ==> Fits(cols[k], recs[j])
  }

  lemma AllFitFromEach(cols: seq<Col>, recs: seq<Record>)
    requires forall j :: 0 <= j < |recs| ==> FitsAll(cols, recs[j])
    ensures AllFit(cols, recs)
  {
    forall k, j | 0 <= k < |cols| && 0 <= j < |recs|
      ensures Fits(cols[k], recs[j])
    {
      assert FitsAll(cols, recs[j]);
    }
  }

  /** Key file k after the records `recs`: its bytes followed by their key column k. */
  function Grown(before: seq<seq<Byte>>, keys: seq<Col>, recs: seq<Record>): (r: seq<seq<Byte>>)
    requires |before| <= |keys| && AllFit(keys, recs)
    ensures |r| == |before|
    ensures forall k :: 0 <= k < |before| ==> r[k] == before[k] + KeyColumn(keys[k], recs)
  {
    seq(|before|, k requires 0 <= k < |before| => before[k] + KeyColumn(keys[k], recs))
  }

  /** Before any record the key files hold what they held. */
  lemma GrownNothing(before: seq<seq<Byte>>, keys: seq<Col>)
    requires |before| <= |keys|
    ensures Grown(before, keys, []) == before
  {
    forall k | 0 <= k < |before|
      ensures Grown(before, keys, [])[k] == before[k]
    {
      assert before[k] + [] == before[k];
    }
  }

  /** Appending record i's key fields to the columns grown by the records before it. */
  lemma GrownStep(before: seq<seq<Byte>>, keys: seq<Col>, recs: seq<Record>, i: nat)
    requires |before| <= |keys| && AllFit(keys, recs) && i < |recs|
    ensures AllFit(keys, recs[..i]) && AllFit(keys, recs[..i + 1]) && FitsAll(keys, recs[i])
    ensures Added(Grown(before, keys, recs[..i]), keys, recs[i]) == Grown(before, keys, recs[..i + 1])
  {
    var a := Added(Grown(before, keys, recs[..i]), keys, recs[i]);
    var b := Grown(before, keys, recs[..i + 1]);
    forall k | 0 <= k < |before|
      ensures a[k] == b[k]
    {
      assert recs[..i + 1][..i] == recs[..i];
    }
  }

  /** The file `open` maps for key i holds that file's first `size_i * num_records` bytes. */
  predicate KeyOpened(f: MmapFile, fs: FileSystem, prefix: string, s: Schema, i: nat, nRecords: nat, ro: bool)
    reads f
    requires i < |s.keys|
  {
    Opens(fs, KeyName(prefix, i, s.keys[i]), Span(nRecords, s.keys[i].size), ro) &&
    Holds(f, fs.disk(KeyName(prefix, i, s.keys[i])).value[..Span(nRecords, s.keys[i].size)])
  }

  /**
   * `MmapFile::open` on a new file object: it succeeds exactly when the
   * file opens, is long enough, can be truncated if it is writable, and
   * maps.
   */
  method OpenNamed(name: string, length: nat, ro: bool, fs: FileSystem) returns (f: MmapFile, ok: bool)
    ensures fresh(f)
    ensures ok <==> Opens(fs, name, length, ro)
    ensures ok ==> Usable(f, ro) && Holds(f, fs.disk(name).value[..length])
  {
    f := new MmapFile();
    ok := f.OpenFixed(length, ro, fs.disk(name), fs.truncatable(name), fs.mappable(name));
  }

  /** The value loop of `_put_bulk`: the fields `cols` of `rec`, appended one after another. */
  method AppendFields(f: MmapFile, cols: seq<Col>, rec: Record)
    requires f.Valid() && f.IsOpen() && !f.readonly && FitsAll(cols, rec)
    modifies f
    ensures f.Valid() && f.IsOpen() && f.readonly == old(f.readonly)
    ensures f.Contents() == old(f.Contents()) + Entry(cols, rec)
  {
    var k := 0;
    while k < |cols|
      invariant 0 <= k <= |cols|
      invariant f.Valid() && f.IsOpen() && !f.readonly
      invariant f.Contents() == old(f.Contents()) + Entry(cols[..k], rec)
    {
      assert cols[..k + 1][..k] == cols[..k];
      var ok := f.Append(FieldBytes(rec, cols[k]), true);
      k := k + 1;
    }
    assert cols[..k] == cols;
  }

  /** The column of one key field: that field of each record in turn. */
  function KeyColumn(c: Col, recs: seq<Record>): seq<Byte>
    requires forall j :: 0 <= j < |recs| ==> Fits(c, recs[j])
  {
    if recs == [] then [] else KeyColumn(c, recs[..|recs| - 1]) + FieldBytes(recs[|recs| - 1], c)
  }

  /** A key file's column is the generic column of the one-field schema. */
  lemma {:induction false} KeyColumnIsColumn(c: Col, recs: seq<Record>)
    requires forall j :: 0 <= j < |recs| ==> Fits(c, recs[j])
    ensures forall j :: 0 <= j < |recs| ==> FitsAll([c], recs[j])
    ensures KeyColumn(c, recs) == Column([c], recs)
  {
    if recs != [] {
      KeyColumnIsColumn(c, recs[..|recs| - 1]);
      assert [c][..0] == [];
    }
  }

  /** Entry i of a key column is key field of record i, so every key file has one entry per record. */
  lemma KeyColumnEntry(c: Col, recs: seq<Record>, i: nat)
    requires forall j :: 0 <= j < |recs| ==> Fits(c, recs[j])
    requires i < |recs|
    ensures Span(i + 1, c.size) <= |KeyColumn(c, recs)|
    ensures KeyColumn(c, recs)[Span(i, c.size)..Span(i + 1, c.size)] == FieldBytes(recs[i], c)
  {
    KeyColumnIsColumn(c, recs);
    ColumnEntry([c], recs, i);
    assert [c][..0] == [];
  }
}
