# RecordModel and MMDB in Dafny

A model of a schema-typed store of fixed-width binary records, with proofs
about it. It covers:

- **RecordModel** describes a record as typed fields at fixed byte offsets:
  - a set of key fields and a set of value fields;
  - one codec per field type.
- **MMDB** keeps batches of such records as column files in a directory;
  the files are memory-mapped.
- **The DBMS** shares one commit log among several MMDB databases. The log
  holds one 512-byte block per commit.

One Dafny module per source file:

| module | file | source |
|---|---|---|
| `FieldTypes` | `rm_types.dfy` | `include/RM_Types.h` |
| `Bytes` | `bytes.dfy` | shared byte-level definitions |
| `ModelDescriptors` | `descriptor_model.dfy` | `include/RecordModel.h` |
| `DescriptorSchema` | `descriptor_define.dfy` | `src/RecordModel.rb` |
| `SchemaBuilder` | `schema_builder.dfy` | `lib/RecordModel/RecordModel.rb` |
| `LegacyBuilder` | `legacy_builder.dfy` | `lib/RecordModel.rb` |
| `RecordModelExt` | `record_model_ext.dfy` | `ext/RecordModel/RecordModel.cc` |
| `Tokens` | `tokens.dfy` | `include/RM_Token.h` |
| `LineReading` | `line_reader.dfy` | `include/LineReader.h` |
| `MappedFile` | `mapped_file.dfy` | `ext/MMDB/MmapFile.h` |
| `ColumnStore` | `mmdb.dfy` | `ext/MMDB/MMDB.cc`: open, close and `_put_bulk` |
| `MmdbQuery` | `mmdb_query.dfy` | `ext/MMDB/MMDB.cc`: the range query |
| `Decimal` | `decimal.dfy` | the decimal text of sizes in MMDB file names |
| `CommitLog` | `commit_log.dfy` | `lib/MMDB/CommitLog.rb` |
| `Dbms` | `dbms.dfy` | `lib/MMDB/DBMS.rb` |

Two small modules support the rest:

- `Wrappers` holds `Option`, `Result` and the error classes.
- `RubyValues` holds the Ruby values that the schema code receives.

The model follows the form of each source file:

- Code that updates state becomes a Dafny `class`. This covers `MmapFile`,
  `MMDB`, `LineReader`, `RM_Token`, the builders, the record array, the
  commit log and the DBMS.
- Loops in the source become `while` loops proved against a specification
  function. This covers:
  - the carry loop of the hex-string `inc`;
  - `compare_keys`;
  - the `initialize` loops;
  - `bulk_parse_line`;
  - the capacity-doubling loop;
  - the `_put_bulk` column loops;
  - `bin_search`.
- Pure lookups and codecs are functions with lemmas.

The main proved properties:

- **Codecs.** The codec round-trips, and the comparisons agree with the
  numeric and lexicographic orders.
- **Schema layout.** Layouts are contiguous. Descriptors pack and unpack
  back to their fields.
- **Text ingestion.**
  - `bulk_parse_line` pushes exactly the accepted lines, in order.
  - Joining tokenizer output restores the line.
  - `readline` never loses a byte.
- **Column store.** `_put_bulk` keeps every column file aligned with every
  other: entry i of each file describes the same record.
- **Range query.** The disabled range query visits exactly the records in
  the query box.
- **Commit metadata.**
  - The record `commit` writes decodes back to the state it came from.
  - After a commit, reopening the directory restores that external state
    and those counts.

## Deviations from the source

Where the source cannot be compiled or leaves something undefined, the
model follows the evident intent.

- `include/RM_Types.h` cannot be compiled as written:
  - two semicolons are missing;
  - `RM_HEXSTRING` has no base class, so it has no offset or size;
  - its `compare` indexes the untyped pointers `a`/`b` instead of the field
    pointers `ap`/`bp`.

  The model gives the hex string a field like every other type and compares
  the field bytes.
- `keys_in_range_pos`, `copy_keys` and `increase_key` are called by the
  disabled query but defined nowhere in the repository. They are defined
  here from what the query needs of them.
- The disabled `bin_search` can stop one position before the lower bound.
  This happens in a run of rows below the key. `MmdbQuery.BinSearch` states
  exactly that, and `query_internal` tolerates it.
- The schema loop of `DBMS#initialize` assigns `hint0 ||= 1024` to a fresh
  local, so every database gets 1024 as its slice hint. The third element
  of a schema entry is the record hint, and a fourth element is ignored.
  `Dbms.DbOf` follows the code as written.
- `MmapFile::open` opens a read-only file with `O_RDONLY` and then calls
  `ftruncate` on it in every mode, which POSIX refuses for such a descriptor.
  So a read-only `MMDB::open`, and with it a read-only `DBMS`, can never
  open. `MappedFile.MmapFile.Open` models the code as written and
  `MappedFile.MmapFile.OpenFixed` skips the truncation for a read-only
  file; the column store uses the latter (see Findings).

## Model

| member | source | states |
|---|---|---|
| FieldTypes.OverwriteReads | include/RM_Types.h:30-32 | a field written at its offset reads back as written, and no byte outside it changes |
| FieldTypes.Store | include/RM_Types.h:44-47 | a store through the element pointer changes bytes [offset, offset + size) of the record to the given bytes and nothing else |
| FieldTypes.NumericCompareIsReversedByteOrder | include/RM_Types.h:56-61 | the numeric comparison of two stored unsigned integers is the lexicographic comparison of their bytes read most significant first |
| FieldTypes.NumericBetweenByCompare | include/RM_Types.h:49-54 | `between` tests the lower bound before the upper, and gives 0 exactly when l <= c <= r numerically |
| FieldTypes.WrapAdd | include/RM_Types.h:34-37 | unsigned addition of width n bytes stays below 2^(8n) |
| FieldTypes.AddResultValue | include/RM_Types.h:34-37 | after `add` the field holds the sum modulo 2^(8 * size), and the bytes outside the field are kept |
| FieldTypes.NumericAdd | include/RM_Types.h:34-37 | `add` updates a's field in place to the wrapped sum of both fields, and only that field |
| FieldTypes.NumericInc | include/RM_Types.h:39-42 | `inc` adds one, wrapping the maximum to 0, and changes only the field |
| FieldTypes.NumericCopy | include/RM_Types.h:44-47 | `copy` makes a's field equal to b's field, and changes only that field |
| FieldTypes.NumericSetMin | include/RM_Types.h:63-66 | `set_min` stores numeric_limits min (0) as zero bytes, and changes only the field |
| FieldTypes.NumericSetMax | include/RM_Types.h:68-71 | `set_max` stores 2^(8 * size) - 1 as 0xFF bytes, and changes only the field |
| FieldTypes.HexInc | include/RM_Types.h:117-134 | the backwards carry loop leaves the field as its big-endian increment (0xFF..FF wraps to zero), and changes only the field |
| FieldTypes.CarryStoppedAt | include/RM_Types.h:120-133 | the state the carry loop stops in is the big-endian increment of the field |
| FieldTypes.HexCopy | include/RM_Types.h:136-139 | `copy` makes a's field bytes equal to b's, and changes only the field |
| FieldTypes.HexSetMin | include/RM_Types.h:174-177 | `set_min` zeroes the field, which is the smallest big-endian value |
| FieldTypes.HexSetMax | include/RM_Types.h:179-182 | `set_max` fills the field with 0xFF, which is the largest big-endian value 2^(8 * size) - 1 |
| FieldTypes.FillBE | include/RM_Types.h:174-182 | a field of zero bytes reads as 0, and one of 0xFF bytes reads as 2^(8n) - 1 |
| FieldTypes.HexBetween | include/RM_Types.h:141-159 | the two byte loops give -1 exactly when c < l, 1 exactly when c >= l and c > r, and 0 otherwise, lexicographically |
| FieldTypes.HexCompare | include/RM_Types.h:161-172 | the first differing byte decides: the result is the lexicographic comparison, which is the comparison of the big-endian values |
| Bytes.LERoundTrip | include/RM_Types.h:30-32 | a value that fits, stored in the host's little-endian byte order, reads back unchanged |
| Bytes.LEBytesOfLE | include/RM_Types.h:30-32 | reading a field and storing the value again gives back the same bytes |
| Bytes.LEBytesZero | include/RM_Types.h:63-66 | the minimum unsigned value is stored as zero bytes |
| Bytes.LEBytesMax | include/RM_Types.h:68-71 | the maximum unsigned value of n bytes is stored as n bytes 0xFF |
| Bytes.LexCmpIsBEOrder | include/RM_Types.h:161-172 | comparing byte strings of one length byte by byte orders them by their big-endian values |
| Bytes.LexCmpZeroIffEqual | include/RM_Types.h:161-172 | the byte-by-byte comparison is 0 exactly on equal strings |
| Bytes.LexCmpAntisymmetric | include/RM_Types.h:161-172 | swapping the operands negates the comparison |
| Bytes.LEIsReversedBE | include/RM_Types.h:30-32 | a little-endian value is the big-endian reading of its bytes reversed |
| Bytes.IncBEValue | include/RM_Types.h:117-134 | the byte-string increment adds one to the big-endian value, wrapping to zero when it overflows |
| Bytes.IncBEAllOnes | include/RM_Types.h:117-134 | a field of all 0xFF bytes increments to all zero bytes |
| Bytes.IncBEStopsAt | include/RM_Types.h:120-133 | when the carry stops at byte i, that byte goes up by one and every byte after it becomes 0 |
| ModelDescriptors.DescriptorRoundTrip | include/RecordModel.h:22-24 | a descriptor packs the offset in the high 16 bits and the type in the low 16, and the three accessors read them back; the size is the type's low byte |
| ModelDescriptors.TypeCodeSizes | include/RecordModel.h:18-24 | the type codes for uint32, uint64 and double carry the sizes 4, 8 and 8 in their low byte, and double is told apart from uint64 |
| ModelDescriptors.FirstZero | include/RecordModel.h:86 | the descriptor loops stop at the first 0 in the list |
| ModelDescriptors.SumFieldsFrame | include/RecordModel.h:78-81 | summing does not touch a byte outside the value fields, so the key attributes keep their bytes |
| ModelDescriptors.SumFieldsKeepsField | include/RecordModel.h:78-81 | a field disjoint from every value field keeps its numeric value through the sum |
| ModelDescriptors.SumFieldsValue | include/RecordModel.h:86-107 | when the value fields do not overlap, each ends up holding the wrapped sum of its values in ra and rb |
| ModelDescriptors.KeyOrderAntisymmetric | include/RecordModel.h:109-146 | swapping the two key buffers negates the result of `compare_keys` |
| ModelDescriptors.KeyOrderZeroIff | include/RecordModel.h:109-146 | `compare_keys` gives 0 exactly when every key field holds the same number in both buffers |
| ModelDescriptors.KeyOrderTransitive | include/RecordModel.h:109-146 | the key order is transitive, strictly so when either step is strict |
| ModelDescriptors.RecordModel.CreateInstance | include/RecordModel.h:53-63 | `create_instance` gives a fresh record of `size` zero bytes owned by this model, or null when the allocation fails |
| ModelDescriptors.RecordModel.ZeroInstance | include/RecordModel.h:65-71 | `zero_instance` zeroes the record's data bytes, and does nothing for null |
| ModelDescriptors.RecordModel.SumInstance | include/RecordModel.h:82-107 | `sum_instance` adds rb's value fields into ra's in list order, up to the terminator |
| ModelDescriptors.RecordModel.CompareKeys | include/RecordModel.h:109-146 | the scan over the key descriptors returns the sign of the first key field that differs, or 0 |
| DescriptorSchema.PackFields | src/RecordModel.rb:28-40 | one `map` block succeeds exactly when every type is in TYPES (otherwise TypeError); it gives the contiguous descriptors, the end offset and the id table with each id added |
| DescriptorSchema.Define | src/RecordModel.rb:22-50 | `define` packs the keys from offset 0 and then the values after them; it fails with TypeError exactly when a type is not in TYPES |
| DescriptorSchema.OnlyUint64 | src/RecordModel.rb:52-55 | :uint64 is the only accepted type, and it is 8 bytes wide |
| DescriptorSchema.EndIsEightPerField | src/RecordModel.rb:31 | with only :uint64 fields, the offset advances by 8 per field |
| DescriptorSchema.DescsDecode | src/RecordModel.rb:29-31 | decoding the i-th descriptor gives the running offset after the fields before it, the declared type code and that type's size |
| DescriptorSchema.DescsContiguous | src/RecordModel.rb:29-31 | field i starts at start + 8i and is 8 bytes wide |
| DescriptorSchema.KeysBeforeValues | src/RecordModel.rb:25-40 | every key field ends at or before the first byte of every value field |
| DescriptorSchema.AssignDomain | src/RecordModel.rb:30 | the id table holds the ids it had and exactly the declared ids |
| DescriptorSchema.AssignLast | src/RecordModel.rb:30 | an id declared more than once maps to the descriptor of its last declaration |
| DescriptorSchema.AssignKeeps | src/RecordModel.rb:37 | an id declared only among the keys keeps its key descriptor after the values are added |
| SchemaBuilder.TypeSize | lib/RecordModel/RecordModel.rb:45-62 | `type_size` accepts exactly a table type whose declared size is absent or matches, or a hexstr/string whose declared size is at most 255; the size is at most 255 and equals any declared size; a missing size for hexstr/string raises NoMethodError, and every other failure is a bare raise |
| SchemaBuilder.TypeSizeTable | lib/RecordModel/RecordModel.rb:46-60 | the table's sizes are uint64, timestamp, timestamp_desc and double 8, uint32 4, uint16 2 and uint8 1; a declared size over 255 or one that disagrees raises |
| SchemaBuilder.Ids | lib/RecordModel/RecordModel.rb:39 | the ids of the field specs, in order |
| SchemaBuilder.LaidContiguous | lib/RecordModel/RecordModel.rb:32-36 | fields start at offset 0 and each begins where the previous one ends |
| SchemaBuilder.LaidAppend | lib/RecordModel/RecordModel.rb:32-43 | appending a spec with a new id at the running offset keeps the layout, and the total grows by its length |
| SchemaBuilder.Builder.Field | lib/RecordModel/RecordModel.rb:22-43 | `field` succeeds exactly when the type sizes and the id is new; it appends [id, type, is_key, offset, length, default] and advances the offset; a raise leaves the builder unchanged |
| SchemaBuilder.FieldIndex | lib/RecordModel/RecordModel.rb:220-226 | `sym_to_fld_idx` is the position of the first field with that id, and a bare raise when there is none |
| SchemaBuilder.ParseDescr | lib/RecordModel/RecordModel.rb:207-218 | `def_parse_descr` maps nil to nil and each symbol to its field index; it fails exactly when some argument is neither, and the first bad argument decides the error |
| SchemaBuilder.BuildQuery | lib/RecordModel/RecordModel.rb:185-202 | `build_query` starts from the per-field minimum and maximum and applies each query entry in hash order |
| SchemaBuilder.FirstBad | lib/RecordModel/RecordModel.rb:189-199 | the position of the first entry that raises: every entry before it is accepted |
| SchemaBuilder.ApplyQueryOk | lib/RecordModel/RecordModel.rb:189-199 | a query is accepted exactly when no entry names an unknown field or an exclusive range; otherwise the first bad entry decides between RuntimeError and ArgumentError |
| SchemaBuilder.ApplyQueryFirstBad | lib/RecordModel/RecordModel.rb:189-199 | with no bad entry the query succeeds, and otherwise it fails with the first bad entry's error |
| SchemaBuilder.ApplyQueryBounds | lib/RecordModel/RecordModel.rb:185-202 | an accepted query puts each named field between its range's first and last (or at its single value), and leaves every other field at its minimum and maximum |
| LegacyBuilder.TypeSize | lib/RecordModel.rb:43-56 | the older `type_size` accepts a table type whose declared size is absent or matches, and any hexstr; a hexstr without a size gives nil; every other case is a bare raise |
| LegacyBuilder.Ids | lib/RecordModel.rb:39 | the ids of the field specs, in order |
| LegacyBuilder.LaidAppend | lib/RecordModel.rb:32-41 | appending a spec with a new id at the running offset keeps the layout |
| LegacyBuilder.LaidContiguous | lib/RecordModel.rb:32-36 | each field begins where the previous one ends |
| LegacyBuilder.Builder.Field | lib/RecordModel.rb:22-41 | `field` appends the spec exactly when the type sizes and the id is new; a nil size raises TypeError at `@current_offset += nil` after the spec is already appended; other failures raise and change nothing |
| LegacyBuilder.BuildQuery | lib/RecordModel.rb:125-154 | the older `build_query` gives each key field its query entry, or the minimum and maximum when the query does not name it; value fields keep a fresh record's value; it raises ArgumentError exactly for an exclusive range on a key or a query key that names no key field |
| LegacyBuilder.FixintRoundTrip | lib/RecordModel.rb:188 | the fixint descriptor keeps the field index in its low 32 bits, the tag 1 in the byte above, and `extra` above that |
| LegacyBuilder.Descr | lib/RecordModel.rb:177-195 | one argument of `def_parse_descr`: nil stays nil; a symbol becomes its field index or raises; `[id, :fixint, extra]` becomes the fixint descriptor; anything else raises ArgumentError |
| LegacyBuilder.ParseDescr | lib/RecordModel.rb:176-196 | the arguments are translated in order, and the first one that fails decides the error |
| RecordModelExt.AllFields | ext/RecordModel/RecordModel.cc:148-222 | the field table holds one field per spec, in declaration order |
| RecordModelExt.CountFields | ext/RecordModel/RecordModel.cc:102-125 | the first loop counts the key specs and the value specs |
| RecordModelExt.BuildTables | ext/RecordModel/RecordModel.cc:141-240 | the second loop builds the field, key and value tables in declaration order, the record size as the largest offset + size, and the key and value sizes as sums |
| RecordModelExt.ExtModel.Initialize | ext/RecordModel/RecordModel.cc:93-252 | a second `initialize` raises ArgumentError and changes nothing; the first one installs the three tables, their counts and the three sizes |
| RecordModelExt.SelectPartition | ext/RecordModel/RecordModel.cc:119-125 | every spec lands in exactly one of the key and value tables, and their sizes add up to the total |
| RecordModelExt.MaxEndBounds | ext/RecordModel/RecordModel.cc:237 | every field ends at or before the record size |
| RecordModelExt.ContiguousMaxEnd | ext/RecordModel/RecordModel.cc:237 | for a contiguous layout the record size is the sum of the field sizes |
| RecordModelExt.ContiguousRecordSize | ext/RecordModel/RecordModel.cc:242 | for specs laid out by a builder, the size assertion of `initialize` holds: the record size is the key size plus the value size |
| RecordModelExt.ConvFieldArr | ext/RecordModel/RecordModel.cc:485-499 | `conv_field_arr` turns nil into -1 and an index into itself as a C int |
| RecordModelExt.ConvertedIndex | ext/RecordModel/RecordModel.cc:494-497 | an index of an existing field converts to itself, never to the nil marker -1 |
| RecordModelExt.ValidateFieldArr | ext/RecordModel/RecordModel.cc:467-483 | `validate_field_arr` passes exactly when every non-nil entry names a field, and otherwise raises ArgumentError |
| RecordModelExt.IngestFilters | ext/RecordModel/RecordModel.cc:761-814 | the records pushed are exactly those the verdicts of the lines read name, in order, each as the block left it where the block was asked; a run that stops full has filled the room, and one that stops at end of input has read every line |
| RecordModelExt.Decide | ext/RecordModel/RecordModel.cc:781-807 | the rejection tests of one parsed line give exactly the verdict of the reference definition |
| RecordModelExt.Verdict | ext/RecordModel/RecordModel.cc:748-807 | a clean line pushes its parsed record; a parse error, or else a token count outside the bounds, rejects the line when the matching reject flag is set and otherwise lets the block decide; a line the block accepts pushes the record as the block handed it back |
| RecordModelExt.Consult | ext/RecordModel/RecordModel.cc:748-755 | the yield accepts exactly when the block answers true, and then hands on the record the block was given and may have edited |
| RecordModelExt.InstanceArray.Push | ext/RecordModel/RecordModel.cc:864-881 | `<<` raises ArgumentError on a model mismatch or a full array and changes nothing; otherwise the record is appended |
| RecordModelExt.InstanceArray.ParseAndPush | ext/RecordModel/RecordModel.cc:779-810 | one line is parsed and tested, and the array grows by exactly the record its verdict names (the block's edited record when the block was asked), or not at all |
| RecordModelExt.InstanceArray.BulkParseLine | ext/RecordModel/RecordModel.cc:761-814 | the records appended, the line count and the full flag are those of the reference run over the input with the free room, the block being told each line's position |
| RecordModelExt.InstanceArray.BulkSet | ext/RecordModel/RecordModel.cc:669-685 | `bulk_set` raises ArgumentError for an index naming no field; otherwise every record gets the value's encoding over that field's bytes, and nothing else changes |
| RecordModelExt.InstanceArray.UpdateEach | ext/RecordModel/RecordModel.cc:691-720 | `_update_each` raises ArgumentError on a model mismatch or a bad index and changes nothing; otherwise each record whose field matches becomes what the block makes of it, the others are unchanged, and the scratch record ends as the last update made, or as it was when nothing matched |
| RecordModelExt.LastUpdateIs | ext/RecordModel/RecordModel.cc:709-717 | the scratch record after the loop holds the block's result for the last matching record, and is untouched when no record matches |
| Tokens.Scan | include/RM_Token.h:44-48 | the scan stops at the first NUL or separator at or after p, or at the end of the line |
| Tokens.ScanInside | include/RM_Token.h:44-48 | in a NUL-terminated line the scan stops at a character of the line |
| Tokens.Token.ParseSep | include/RM_Token.h:40-55 | `parse_sep`: the token starts at ptr and runs to the first separator or NUL, containing neither; the result is one past a separator that ended it, or the position of the NUL |
| Tokens.Token.ParseSpaceSep | include/RM_Token.h:22-38 | `parse_space_sep`: leading whitespace is skipped; the token runs to the next whitespace or NUL and contains neither; the whitespace after it is not consumed |
| Tokens.Token.Parse | include/RM_Token.h:57-67 | `parse` in whitespace mode (separator the space character) skips leading white space to a non-space token start, ends the token at the first NUL or white space, and resumes at that character; in separator mode the token starts at the pointer, ends at the first NUL or separator, and resumes past a separator but not past the NUL |
| Tokens.EmptyToken | include/RM_Token.h:16-20 | the token `parse_sep` cuts is empty exactly when a separator or NUL stands at its start |
| Tokens.JoinFields | include/RM_Token.h:40-55 | joining the tokens of repeated `parse_sep` calls with the separator gives back the line up to its NUL |
| Tokens.FieldsClean | include/RM_Token.h:44-48 | every token cut holds neither the separator nor NUL |
| Tokens.FieldsOfJoin | include/RM_Token.h:40-55 | splitting a NUL-terminated join of clean tokens gives those tokens back, so the split is the only one |
| Tokens.FieldsOfJoinAt | include/RM_Token.h:40-55 | the same, for a join that stands anywhere in the line |
| LineReading.TakeFront | include/LineReader.h:62 | a read that delivers a prefix of the reader's front block loses no byte and brings the reader closer to its end |
| LineReading.LineReader.constructor | include/LineReader.h:15-23 | a new reader has no pending bytes, has not seen end of file, and its content is everything the file reader will deliver |
| LineReading.LineReader.FindNewline | include/LineReader.h:31-42 | the scan finds the first newline among the pending bytes, or reports that there is none |
| LineReading.LineReader.Read | include/LineReader.h:62-64 | `read` gives -1 on an error and 0 at end of file, changing nothing; otherwise it stores up to `max` bytes at the position given and loses none |
| LineReading.LineReader.Compact | include/LineReader.h:94-103 | moving the pending bytes to the front of the buffer keeps them unchanged |
| LineReading.LineReader.Readline | include/LineReader.h:25-106 | `readline` gives NULL once end of file was seen with nothing pending, or on a read error, and loses nothing; otherwise it gives the next line, NUL-terminated and without a newline, ended by its newline, by end of file or by a full buffer |
| LineReading.LineReader.Refill | include/LineReader.h:52-105 | the refill loop reads and compacts until it can give a line, or gives NULL on a read error and loses nothing |
| LineReading.LineReader.ReadStep | include/LineReader.h:58-84 | one read behind the pending bytes: NULL on an error, the rest as a line at end of file, the line up to a newline among the new bytes, or else more pending bytes |
| LineReading.LineReader.Absorb | include/LineReader.h:72-83 | the bytes just read give the line up to the first newline among them, or else all become pending |
| LineReading.LineReader.TakeLine | include/LineReader.h:33-40 | the newline is replaced by NUL; the line before it is returned, and the bytes after it stay pending |
| LineReading.LineReader.TakeRest | include/LineReader.h:45-50 | every pending byte is returned as the line, NUL-terminated, and nothing stays pending |
| MappedFile.Resize | ext/MMDB/MmapFile.h:85 | after `ftruncate` to n the file has n bytes: its old bytes cut, or padded with zero bytes |
| MappedFile.Grow | ext/MMDB/MmapFile.h:168-169 | the doubling loop reaches a capacity that holds the need, keeps one that already does, and stays under twice the need |
| MappedFile.MmapFile.constructor | ext/MMDB/MmapFile.h:27-34 | a new file is closed and unmapped, with size and capacity 0 and read-only set |
| MappedFile.MmapFile.Open | ext/MMDB/MmapFile.h:40-108 | `open` as written succeeds exactly when the file was not open, exists, is at least `file_length` long, `ftruncate` succeeds and the map succeeds; since `ftruncate` is also issued on a descriptor opened read-only, a read-only open never succeeds; a failure changes nothing; on success it maps max(file_length, 16 pages) bytes, of which the first `file_length` are in use |
| MappedFile.MmapFile.OpenFixed | ext/MMDB/MmapFile.h:40-108 | `open` with the truncation issued only for a writable file: it succeeds exactly when the file was not open, exists, is long enough, is read-only or truncates, and maps; the rest as for `open` |
| MappedFile.ReadOnlyNeverOpens | ext/MMDB/MmapFile.h:51-89 | under the code as written no read-only open succeeds, whatever the file and the OS |
| MappedFile.ReadOnlyOpensFixed | ext/MMDB/MmapFile.h:51-89 | with the truncation skipped, a read-only open of an existing, long enough file succeeds whenever the map does |
| MappedFile.FixedAgreesWhenWritable | ext/MMDB/MmapFile.h:51-89 | for a writable file the corrected open succeeds exactly when the one as written does |
| MappedFile.MmapFile.Close | ext/MMDB/MmapFile.h:110-122 | `close` unmaps and closes, and leaves the sizes as they were |
| MappedFile.MmapFile.Expand | ext/MMDB/MmapFile.h:127-157 | `expand` raises a request below one page to one page and refuses a capacity below the current one without effect; otherwise the mapping is dropped first, so a failed OS call leaves the file unmapped, and success maps the new capacity, zero-filled past the old |
| MappedFile.MmapFile.PtrWriteAt | ext/MMDB/MmapFile.h:162-182 | `ptr_write_at` gives NULL exactly when the range lies past the capacity and growth fails; otherwise the capacity is the doubled one, the size covers the range, and the pointer is at `offset` |
| MappedFile.MmapFile.PtrAppend | ext/MMDB/MmapFile.h:184-187 | `ptr_append` writes at the logical end, so the size grows by exactly `length` and the bytes in use are kept |
| MappedFile.MmapFile.PtrReadAt | ext/MMDB/MmapFile.h:189-196 | `ptr_read_at` gives NULL exactly when the range reaches past the logical size |
| MappedFile.MmapFile.WriteThrough | ext/MMDB/MmapFile.h:181 | a copy through a pointer handed out for a range changes exactly that range of the bytes in use |
| MappedFile.MmapFile.Append | ext/MMDB/MmapFile.h:184-187 | appending bytes succeeds exactly when they fit or growth succeeds, and then the bytes in use are the old ones followed by the new |
| MappedFile.ResizeKeeps | ext/MMDB/MmapFile.h:137-155 | growing the mapping keeps every byte in use |
| ColumnStore.Entry | ext/MMDB/MMDB.cc:263-268 | one record's entry in a file is the bytes of the file's fields, one after another, with the width of the columns |
| ColumnStore.ColumnEntry | ext/MMDB/MMDB.cc:31-33 | entry i of a column holds record i's fields, so position i in every file describes the same record |
| ColumnStore.ColumnSnoc | ext/MMDB/MMDB.cc:257-279 | a column is the column of all records but the last, followed by the last one's entry |
| ColumnStore.ColumnSplit | ext/MMDB/MMDB.cc:254-279 | the column of two batches is the column of the first followed by that of the second, so `put_bulk` calls append |
| ColumnStore.ColumnLength | ext/MMDB/MMDB.cc:31-33 | a column of n records is n fixed-width entries long |
| ColumnStore.SpanIsProduct | ext/MMDB/MMDB.cc:100 | the length of n entries of width w is the product n * w that the source computes |
| ColumnStore.MMDB.constructor | ext/MMDB/MMDB.cc:55-65 | a new store has no schema and no files, counters 0, and is read-only |
| ColumnStore.MMDB.Close | ext/MMDB/MMDB.cc:126-161 | `close` closes every file there is, drops the files and the schema, zeroes the counters and sets read-only |
| ColumnStore.MMDB.Open | ext/MMDB/MMDB.cc:75-124 | `open` succeeds exactly when the slices file (4 bytes per slice), the data file (value size per record) and every key file (key size per record) open in the requested mode; on success each file's bytes in use are that prefix of the file, and the first failure closes everything |
| ColumnStore.MMDB.OpenKeys | ext/MMDB/MMDB.cc:103-116 | the key loop opens file i with `size_i * num_records` bytes in use, and stops at the first failure |
| ColumnStore.OpenNamed | ext/MMDB/MMDB.cc:93-95 | opening a new file object succeeds exactly when the file exists, is long enough, is read-only or truncates, and maps, and then holds that prefix |
| ColumnStore.MMDB.PutBulk | ext/MMDB/MMDB.cc:222-280 | `_put_bulk` on an empty batch changes nothing; otherwise it appends the slice length as 4 bytes, the sorted batch's value column to the data file, and its key column k to key file k |
| ColumnStore.MMDB.AppendAll | ext/MMDB/MMDB.cc:257-279 | the record loop appends the batch's value column to the data file and key column k to key file k |
| ColumnStore.MMDB.AppendRecord | ext/MMDB/MMDB.cc:259-278 | one record's value fields go to the data file, and its key field k to key file k |
| ColumnStore.MMDB.AppendKeys | ext/MMDB/MMDB.cc:270-278 | the key loop appends key field k of the record to key file k |
| ColumnStore.AppendFields | ext/MMDB/MMDB.cc:261-268 | the value loop appends the record's value fields one after another |
| ColumnStore.GrownStep | ext/MMDB/MMDB.cc:270-278 | appending record i's key fields extends the key columns of the records before it |
| ColumnStore.KeyColumnIsColumn | ext/MMDB/MMDB.cc:31-33 | a key file is the column of the one-field schema of its key |
| ColumnStore.KeyColumnEntry | ext/MMDB/MMDB.cc:31-33 | entry i of a key file is the key field of record i |
| MmdbQuery.DiffFrom | ext/MMDB/MMDB.cc:328 | the first key field at or after i where the two keys differ, or their length |
| MmdbQuery.DiffIs | ext/MMDB/MMDB.cc:328 | any position that is a first difference of two keys is the first difference |
| MmdbQuery.CmpAntisymmetric | ext/MMDB/MMDB.cc:328 | swapping two keys negates their comparison |
| MmdbQuery.CmpTransitive | ext/MMDB/MMDB.cc:328 | the key order is transitive, strictly so when either step is strict |
| MmdbQuery.InBoxBetween | ext/MMDB/MMDB.cc:417-423 | a key with every field between those of `from` and `to` lies between them in key order |
| MmdbQuery.RangePos | ext/MMDB/MMDB.cc:434-447 | `keys_in_range_pos` is 0 exactly when every field lies within its bounds; otherwise, for the first field g that does not, it is -(g+1) when the field lies below `from` and g+1 when it lies above `to` |
| MmdbQuery.CopyKeys | ext/MMDB/MMDB.cc:459 | `copy_keys(current, from, f)` replaces the key fields from f on by those of `from` and keeps the others |
| MmdbQuery.IncreaseKey | ext/MMDB/MMDB.cc:472 | `increase_key(current, f)` steps key field f up by one and keeps the others |
| MmdbQuery.SkipBelow | ext/MMDB/MMDB.cc:449-459 | when a field after the first lies below `from`, every key from the row's key up to the rewritten key lies outside the box |
| MmdbQuery.SkipAbove | ext/MMDB/MMDB.cc:461-472 | when a field after the first lies above `to`, every key from the row's key up to the rewritten key with the field before it increased lies outside the box |
| MmdbQuery.LeadAbove | ext/MMDB/MMDB.cc:465-469 | a leading field beyond `to` puts every later key of the sorted slice outside the box |
| MmdbQuery.FilterMembers | ext/MMDB/MMDB.cc:402-486 | a row is visited in a slice exactly when the slice holds it and it lies in the box |
| MmdbQuery.MatchesMembers | ext/MMDB/MMDB.cc:402-486 | a row is matched by the query exactly when some slice holds it and it lies in the box |
| MmdbQuery.FilterSkip | ext/MMDB/MMDB.cc:476 | skipping rows outside the box changes nothing that is visited |
| MmdbQuery.FeedAppend | ext/MMDB/MMDB.cc:438-441 | handing two runs of rows to the iterator is handing the first, then the second unless it stopped |
| MmdbQuery.FeedPrefix | ext/MMDB/MMDB.cc:438-441 | the rows handed to the iterator are a prefix of the run; all of them when it never stops, and when it stops, the last one handed over got the answer false |
| MmdbQuery.FeedAll | ext/MMDB/MMDB.cc:372-376 | an iterator that always answers true (`yield_iter`) is handed every row |
| MmdbQuery.LowerBound | ext/MMDB/MMDB.cc:312-365 | the first position in [l, r+1) whose key is not below the search key |
| MmdbQuery.LowerBoundOrBefore | ext/MMDB/MMDB.cc:312-365 | a search that passes only rows below the key and leaves only rows at or above it stops at the lower bound, or one position before it at a row below the key |
| MmdbQuery.BinSearch | ext/MMDB/MMDB.cc:312-365 | `bin_search` over a sorted slice stays in [l, r+1); every row before the result sorts below the key and every row after it up to r at or above it, so the result is the lower bound or the row just before it |
| MmdbQuery.ScanLeft | ext/MMDB/MMDB.cc:344-357 | on an equal key the search moves left to the first equal row not below l, and every row before it from l sorts below the key |
| MmdbQuery.BelowEqual | ext/MMDB/MMDB.cc:344-357 | below the first row of a run equal to the key, every row sorts below the key |
| MmdbQuery.BelowOut | ext/MMDB/MMDB.cc:426 | rows that sort below `from` lie outside the box |
| MmdbQuery.PrunedEmpty | ext/MMDB/MMDB.cc:417-423 | a slice whose first key sorts above `to`, or whose last key sorts below `from`, holds no row of the box |
| MmdbQuery.RangePosZero | ext/MMDB/MMDB.cc:434-435 | `keys_in_range_pos` is 0 exactly for the keys in the box |
| MmdbQuery.FeedHit | ext/MMDB/MMDB.cc:435-443 | a row in the box is the next one handed to the iterator |
| MmdbQuery.ScanSlice | ext/MMDB/MMDB.cc:425-478 | the scan of one non-empty slice hands the iterator exactly the slice's rows in the box, in order, up to a stop |
| MmdbQuery.SkipOut | ext/MMDB/MMDB.cc:444-477 | a row out of the box whose leading field is not beyond `to` moves the scan forward past rows that are all out of the box |
| MmdbQuery.AboveEnds | ext/MMDB/MMDB.cc:465-469 | a leading field beyond `to` means no row from there on is in the box |
| MmdbQuery.SkippedOut | ext/MMDB/MMDB.cc:459-476 | the row and the rows the forward search passes over after rewriting the key all lie outside the box |
| MmdbQuery.Query | ext/MMDB/MMDB.cc:402-486 | `query_internal` hands the iterator the rows of the box slice by slice, in order, up to the first stop, and returns false exactly when the iterator stopped it |
| MmdbQuery.QueryVisitsMatches | ext/MMDB/MMDB.cc:488-509 | with `yield_iter`, `query` hands over exactly the rows of the box: a row is handed over iff some slice holds it and every key field lies between `from` and `to` |
| Decimal.ToDecimal | ext/MMDB/MMDB.cc:98 | the `%ld` text of a size: decimal digits, most significant first, with no leading zero |
| Decimal.DigitsValueOfDecimal | ext/MMDB/MMDB.cc:98 | reading the decimal text back gives the number |
| Decimal.DecimalInjective | ext/MMDB/MMDB.cc:35-40 | distinct sizes give distinct file names, which is what the sizes in the names guard |
| RubyValues.IndexOf | lib/RecordModel/RecordModel.rb:220-222 | `index` gives the first position holding the id, and nil exactly when no position does |
| RubyValues.IndexOfDistinct | lib/RecordModel/RecordModel.rb:220-222 | with distinct ids, looking up the id at position i gives i |
| CommitLog.Pad | lib/MMDB/CommitLog.rb:53-55 | `ljust` of a string that fits: exactly one block, the string first, the filler after it |
| CommitLog.Last | lib/MMDB/CommitLog.rb:31-43 | fails (RuntimeError) exactly when an existing file is not whole blocks; nil exactly for a missing or empty file; otherwise the final 512 bytes |
| CommitLog.All | lib/MMDB/CommitLog.rb:10-29 | a missing file gives no blocks; a ragged size, a negative count or a non-zero count on an empty file raises; a count past the end raises NoMethodError; otherwise the first n blocks, each 512 bytes, in file order |
| CommitLog.Truncated | lib/MMDB/CommitLog.rb:45-49 | `File.truncate` leaves exactly the requested length, the old bytes first and zero bytes after |
| CommitLog.Log.Append | lib/MMDB/CommitLog.rb:51-61 | a string longer than a block raises ArgumentError and leaves the file alone; otherwise the file (created when missing) gains that string padded to one block at its end |
| CommitLog.Log.Truncate | lib/MMDB/CommitLog.rb:45-49 | an existing file becomes exactly n blocks; a missing one stays missing |
| CommitLog.AppendGrows | lib/MMDB/CommitLog.rb:51-61 | appending to a whole-block file keeps it whole blocks and adds exactly one |
| CommitLog.LastAfterAppend | lib/MMDB/CommitLog.rb:31-61 | after `append(s)`, `last` reads back s padded to a block |
| CommitLog.AllAfterAppend | lib/MMDB/CommitLog.rb:10-61 | after `append(s)`, `all` reads the earlier blocks unchanged followed by s padded |
| CommitLog.LastOfAll | lib/MMDB/CommitLog.rb:10-43 | `last` fails exactly when `all` does, is nil exactly when `all` is empty, and is otherwise the final block `all` reads |
| CommitLog.TruncateLeaves | lib/MMDB/CommitLog.rb:10-49 | after `truncate(n)` the file reads as exactly n blocks, those that were there unchanged |
| Dbms.IndexOfChar | lib/MMDB/DBMS.rb:26 | the first position holding the separator, or the length when there is none |
| Dbms.DropTrailingEmpty | lib/MMDB/DBMS.rb:26 | `split` drops only trailing empty pieces: the result is a prefix, ends in a non-empty piece, and everything dropped is empty |
| Dbms.JoinSplit | lib/MMDB/DBMS.rb:26 | joining the pieces of a split on the same separator gives the text back |
| Dbms.SplitJoin | lib/MMDB/DBMS.rb:26-85 | splitting joined pieces that hold no separator, text without one after them, gives the pieces back |
| Dbms.ParseDigits | lib/MMDB/DBMS.rb:26 | digits read as a non-negative number; anything else is ArgumentError |
| Dbms.ParseSigned | lib/MMDB/DBMS.rb:26 | a sign before the digits; failure is ArgumentError |
| Dbms.ParseInteger | lib/MMDB/DBMS.rb:26 | `Integer(str)` fails only with ArgumentError |
| Dbms.IntegerCanonical | lib/MMDB/DBMS.rb:26 | what `Integer()` accepts is, inside whitespace, the decimal text of its value, with an optional plus sign, or "-0" |
| Dbms.CanonicalDigits | lib/MMDB/DBMS.rb:26 | digits without a leading zero are the decimal text of their value |
| Dbms.StripPadded | lib/MMDB/DBMS.rb:26 | the spaces the log pads with are stripped from the last number's text |
| Dbms.IntegerOfString | lib/MMDB/DBMS.rb:26-85 | `Integer()` reads back the text `join` writes for a number, spaces after it included |
| Dbms.Flatten | lib/MMDB/DBMS.rb:74-82 | the record body holds two values per database |
| Dbms.FlattenAt | lib/MMDB/DBMS.rb:79-81 | the k-th database's slices and records sit at positions 2k and 2k+1 |
| Dbms.Pairs | lib/MMDB/DBMS.rb:29 | `logr.shift(2)` per schema: the k-th pair is the values at 2k and 2k+1 |
| Dbms.PairsOfFlatten | lib/MMDB/DBMS.rb:29-81 | taking a written record body two at a time gives the pairs back |
| Dbms.FlattenPairs | lib/MMDB/DBMS.rb:29-81 | writing back pairs taken two at a time gives the values back |
| Dbms.ParseAll | lib/MMDB/DBMS.rb:26 | `map {Integer(i)}` succeeds exactly when every piece parses, then holds each piece's value in order; otherwise ArgumentError |
| Dbms.Decode | lib/MMDB/DBMS.rb:24-30 | the last block decodes exactly when every piece is an integer and there are 2n+1 of them, to the external state and n pairs that write back to those values; a bad piece is ArgumentError, a wrong count RuntimeError |
| Dbms.PiecePadded | lib/MMDB/DBMS.rb:26 | each piece of a written record, the last with the padding, parses to its value |
| Dbms.ParsePadded | lib/MMDB/DBMS.rb:26 | the pieces of a padded written record parse to the values written |
| Dbms.DecodeEncode | lib/MMDB/DBMS.rb:24-85 | the record `commit` writes, padded to a block by the log, decodes to the external state and the counts it was made of |
| Dbms.CountsMap | lib/MMDB/DBMS.rb:29-33 | `cr` has an entry for every schema id and no other |
| Dbms.CountsMapAt | lib/MMDB/DBMS.rb:29 | with distinct ids, each id's committed counts are the pair at its position |
| Dbms.Recovered | lib/MMDB/DBMS.rb:24-34 | every schema id gets counts; with no record the external state is 0 |
| Dbms.OpenFromOk | lib/MMDB/DBMS.rb:38-48 | the schema loop succeeds exactly when every id is a new distinct Symbol with a class whose database opens, and then opens each database at its committed counts and keeps nothing else |
| Dbms.FreshStart | lib/MMDB/DBMS.rb:31-48 | a directory without a commit record opens acceptable schemas at (0, 0) with external state 0 |
| Dbms.ReopenAfterCommit | lib/MMDB/DBMS.rb:11-90 | after a commit appends its record, reopening gives that external state and opens every database at the counts committed for it |
| Dbms.Collect | lib/MMDB/DBMS.rb:74-82 | the commit loop yields one pair per schema, or fails with ArgumentError or RuntimeError |
| Dbms.CollectEach | lib/MMDB/DBMS.rb:74-82 | a successful commit loop saw every id open and took every database's answer, in schema order |
| Dbms.CollectFails | lib/MMDB/DBMS.rb:74-82 | the first failure in the loop is the failure of the whole commit |
| Dbms.CollectAll | lib/MMDB/DBMS.rb:74-82 | with every id open and every database answering, the commit loop succeeds |
| Dbms.CollectRecord | lib/MMDB/DBMS.rb:74-83 | the loop building `logr` gives the first failure, or the external state followed by each database's answer in order |
| Dbms.DBMS.Open | lib/MMDB/DBMS.rb:7-49 | opening succeeds exactly when the recovered state does, with that external state and those databases, and fails with its error otherwise |
| Dbms.DBMS.GetDb | lib/MMDB/DBMS.rb:106-110 | the database of an open id; ArgumentError exactly when the id is not open |
| Dbms.DBMS.PutBulk | lib/MMDB/DBMS.rb:59-62 | read-only raises ArgumentError; otherwise the records go to the database `get_db` finds |
| Dbms.DBMS.Commit | lib/MMDB/DBMS.rb:70-90 | read-only or nil raises ArgumentError; a failing loop raises its error; a record longer than a block raises ArgumentError; only on success the log gains the padded record and the external state is updated; the databases are untouched |
| Dbms.DBMS.Close | lib/MMDB/DBMS.rb:101-104 | no database is left open and the external state is kept |

## Left out

- `RM_DOUBLE` and the `RMT_DOUBLE` branches of `sum_instance` and `compare_keys`: floating point. A double descriptor is decoded but never summed or compared.
- Ruby binding glue: allocation, GC marking, `Data_Wrap_Struct`, `Init_*`, the GVL and thread calls, `to_s`, `to_hash`, `inspect`, `to_c_struct` and `to_class`. It is host-runtime plumbing.
- The LevelDB, KyotoCabinet and TokyoCabinet wrappers: thin layers over third-party stores.
- The file readers behind `LineReader`: POSIX, fd, gzip, xz and auto. The reader is a sequence of blocks or errors.
- `LineParser`: producer/consumer threading with queues.
- The query and snapshot wrappers in Ruby: `Query.rb`, `DB.rb`, the `MMDB`/`RecordModelMMDB` wrappers, `DBMS#query`, `DBMS#snapshot`, `DBMS#with` and `DBMS::Snapshot`. They delegate to extension methods not shown in the repository.
- `set_from_string` / `parse_line` field parsing: the repository does not define it. The parse of a line is a parameter of `bulk_parse_line`. The Ruby block is a parameter too: given the line's position among the lines read and the parsed line, it gives its answer and the record as it leaves it.
- `RecordModelExt.InstanceArray.BulkParseLine` takes the lines `readline` would give as a sequence. A read error, which ends the loop like end of file, is not told apart.
- `ModelDescriptors.RecordModel.SumInstance` requires two distinct buffers, so `sum_instance(ra, ra)`, which doubles the value fields, is not modelled. The one caller, `ext/LevelDB/LevelDB.cc`, passes a freshly created instance as the target.
- `RecordModelExt.InstanceArray`: only the fixed-capacity array is modelled; the expandable arrays `push` can also grow are not.
- `ColumnStore.MMDB.PutBulk` takes the outcome of `arr->sort()` as a parameter. The parameter must be a permutation of the batch whose keys are in order, so the verify-mode assertion over consecutive records always holds and is not modelled separately.
- `ColumnStore.MMDB.PutBulk` takes every append to succeed. The source writes through the pointer `ptr_append` returns without checking it for NULL, so a failed growth there is undefined behaviour.
- System calls and the file system: `open(2)`, `fstat`, `ftruncate`, `mmap`, `mremap`, `munmap`, `close`, `fsync` and `File.exist?`. Each is a parameter: what it yields, or whether it succeeds. `MmapFile::sync`, a stub that returns true, is not modelled.
- `size_t`/`off_t` overflow in the size computations of `MmapFile` and `MMDB::open`: integers are unbounded, and the doubling loop is taken to terminate.
- `MmdbQuery.IncreaseKey` steps a key field up without the field width's wrap-around. An unbounded integer is used because the repository does not define `increase_key`.
- `MmdbQuery`: `RecordDB`, `record_n` and `slices_beg`, used by the disabled query, are not part of this model. The slices are sequences of rows, and a `NULL` iterator or `array_fill_iter` is replaced by an iterator function.
- `CommitLog.Log.Append`: a multi-character filler, and the `size`/`bytesize` checks after `ljust`. One character is one byte, since the records are ASCII.
- `CommitLog.Log.Truncate` takes a non-negative block count; `File.truncate` raises on a negative length.
- `Dbms.ParseInteger` accepts only the decimal form of Ruby's `Integer()`. Prefixes such as `0x` and `0b`, octal leading zeros and underscores are rejected with ArgumentError, where Ruby would accept them. `commit` never writes them.
- `Dbms.DBMS.Commit` takes an Integer or nil external state. Other Ruby objects, which `join` would turn into text, are not modelled.
- `Dbms.DBMS.Open`: the directory creation and `DB.open`, and in `Commit` and `Close` each database's `commit` and `close`, are parameters or left out. Their answers are passed in.
- The Ruby `Integer` bounds and the 64-bit external state are not modelled: integers are unbounded.

## Findings

| source | as written | input that shows it | evidently intended | confidence | as-written member | corrected member |
|---|---|---|---|---|---|---|
| ext/MMDB/MmapFile.h:51-89 | the descriptor is opened `O_RDONLY` for a read-only file, and `ftruncate(fh, capa)` is then called in every mode, failing on that descriptor | any read-only open, e.g. `MMDB::open` with `readonly` true on files that exist and are long enough | a read-only file is mapped without being truncated | not executed | MappedFile.MmapFile.Open | MappedFile.MmapFile.OpenFixed |
