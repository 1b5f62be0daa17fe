# db-control storage core in Dafny

This project models the two record stores of db-control. Both keep
fixed-width binary records in a single file.

- `FileDatabase` (main.py) has a fixed people schema: `ID` as a 32-bit
  integer, `Name` in 20 bytes, `Age` as a 32-bit integer and `Email` in
  30 bytes, giving 58-byte slots. It keeps the slots in ascending `ID`
  order:
  - `add_record` binary-searches for the ID, then opens a gap in place
    with a carry-buffer shift loop;
  - `find_record` binary-searches on `ID` and scans for any other field;
  - `delete_record` copies the slots that do not match;
  - `search_by_field` and `get_all_records` scan the file.
- `Table` (Table.py) takes its schema as a list of `(name, type)` columns.
  `int` becomes a 32-bit integer and `str` becomes 20 bytes. `find_by_id`
  is a binary search returning the index found or the insertion point.
  `add_record` validates the record, runs a duplicate check, and appends
  the record to the end of the file.

The file's content is a `seq<Byte>` field of each store class. `seek`,
`read`, `readinto` and `write` are `ReadAt` and `WriteAt` on that
sequence, and `os.path.getsize` is its length. Integers are
little-endian two's complement and use the `struct` codes `i` and `<n>s`.
A value that `struct.pack` refuses becomes `Err(StructError)`. Every
exception the model keeps becomes an `Err` of `Errors.PyError`; the ones
it does not keep are listed under "Left out".

Modules:

| module | contents |
|---|---|
| `Bytes` | bytes, space padding (`ljust` followed by `struct` truncation), `strip` on ASCII whitespace |
| `IntCodec` | the 4-byte little-endian `int32` codec |
| `PyValue` | `str()` of the values the stores compare |
| `Errors` | exceptions, `Result`, `Option` |
| `Seqs` | order-preserving filters and maps |
| `SlotFile` | byte-offset reads and writes, the file as a run of slots, and the steps of the shift loop |
| `FixedSchema` | the 58-byte codec, and what a file of such slots holds |
| `FileStore` | class `FileDatabase` |
| `GenericTable` | record formats, the generic codec, the binary search, and class `Table` |

## Model

| member | source | states |
|---|---|---|
| `Bytes.Strip` | main.py:125 | `strip()` is never longer than its input; `StripRightSpec`, `StripLeftSpec`, `StripTrimmed` and `StripIdempotent` state what it removes |
| `Bytes.StripRightSpec` | main.py:125 | the right strip is a prefix ending in a non-space, and it removed only whitespace |
| `Bytes.StripLeftSpec` | main.py:125 | the left strip is a suffix starting with a non-space, and it removed only whitespace |
| `Bytes.StripTrimmed` | main.py:125 | `strip()` output has no surrounding whitespace |
| `Bytes.StripRightPadding` | main.py:115 | stripping ignores the spaces `ljust` appends |
| `Bytes.StripFit` | main.py:115-125 | a trimmed text no wider than the field comes back unchanged after padding then stripping |
| `Bytes.StripIdempotent` | main.py:125 | `strip()` leaves a text unchanged exactly when the text is trimmed |
| `Bytes.Fit` | main.py:115 | the padded field has exactly the field width, holds the text's bytes first and spaces after them, and cuts longer texts |
| `IntCodec.EncodeInt32` | main.py:112-118 | `struct.pack('i')` of a 32-bit value is four bytes; `Int32RoundTrip` and `Int32Surjective` make it the inverse of `DecodeInt32` |
| `IntCodec.Int32RoundTrip` | main.py:112-122 | decoding the 4 bytes of an in-range integer gives the integer back |
| `IntCodec.Int32Surjective` | main.py:112-122 | every 4-byte group is the encoding of the integer it decodes to |
| `IntCodec.DecodeInt32` | main.py:122 | every 4 bytes decode to a value in the signed 32-bit range |
| `PyValue.Decimal` | main.py:67 | `str(n)` of an integer: `DecimalSign`, `DecimalNatDigits` and `DecimalInjective` state its form and that it identifies `n` |
| `PyValue.Str` | main.py:67 | `str(v)` of a value: an integer's decimal form, a text as itself |
| `PyValue.DecimalInjective` | main.py:67 | `str(a) == str(b)` exactly when the integers `a` and `b` are equal |
| `PyValue.DecimalSign` | main.py:67 | `str(n)` begins with `-` exactly when `n` is negative |
| `PyValue.DecimalNatDigits` | main.py:67 | `str(n)` of a natural number is all digits, and is one digit exactly when `n < 10` |
| `SlotFile.ReadAt` | main.py:32-33 | a read returns the bytes at the position, and is short only at the end of the file |
| `SlotFile.WriteAt` | main.py:50-51 | a write replaces the bytes at the position, keeps those before and after, and extends the file when it runs past the end |
| `SlotFile.ChunksCount` | main.py:29 | the size divided by the slot size, rounded down, is the number of whole slots |
| `SlotFile.ReadSlot` | main.py:32-33 | reading a slot's size at slot `k`'s offset gives slot `k`, and gives nothing at the end of an aligned file |
| `SlotFile.ChunksInsert` | main.py:44-56 | inserting a slot's bytes at slot `k`'s offset inserts that slot at index `k` |
| `SlotFile.ShiftTurn` | main.py:47-54 | one turn of the shift loop reads the next slot, writes the carried slot, and moves the gap one slot on; at the end of the file, the read is empty and the write completes the insertion |
| `FixedSchema.Pack` | main.py:110-118 | succeeds exactly when ID and Age are 32-bit values, otherwise `struct.error`; gives 58 bytes: ID at 0-3, Name padded to 20 bytes at 4-23, Age at 24-27, Email padded to 30 bytes at 28-57 |
| `FixedSchema.Unpack` | main.py:120-128 | the decoded integers lie in the 32-bit range, and the stripped texts are no longer than their fields; `UnpackStorable` and `RoundTrip` state the rest |
| `FixedSchema.UnpackStorable` | main.py:120-128 | every 58-byte slot decodes to a storable record: 32-bit integers, and trimmed texts within their widths |
| `FixedSchema.RoundTrip` | main.py:110-128 | `unpack_record(pack_record(r)) == r` for 32-bit integers and trimmed texts that fit their fields |
| `FixedSchema.PackKeepsId` | main.py:110-128 | every record that packs keeps its ID through the codec |
| `FixedSchema.ReadRecord` | main.py:32-34 | reading 58 bytes at offset `58·k` gives slot `k`, which decodes to the `k`-th record; at the end of the file the read is empty |
| `FixedSchema.DecodeKeptSlots` | main.py:62-68 | the slots kept byte for byte decode to the records that do not match, in file order |
| `FixedSchema.RejectSorted` | main.py:59-69 | dropping records keeps the IDs strictly increasing |
| `FixedSchema.FilterSorted` | main.py:98-108 | the matches of a sorted file are sorted |
| `FixedSchema.MatchesId` | main.py:106 | a record matches an integer query on `ID` exactly when its ID equals the integer |
| `FixedSchema.AbsentIdNoMatch` | main.py:73-87 | no record matches an ID that is absent |
| `FixedSchema.SortedSingleMatch` | main.py:73-87 | in a sorted file, the record holding an ID is its only match |
| `FixedSchema.DeleteById` | main.py:59-69 | on a sorted file, deleting by ID keeps exactly the other records and removes one record exactly when the ID was present |
| `FixedSchema.InsertSorted` | main.py:44-56 | inserting a record where every earlier ID is smaller and every later ID larger keeps the file sorted |
| `FixedSchema.RecordsInsert` | main.py:44-56 | inserting packed bytes at offset `58·k` inserts the record at index `k` and keeps the file aligned |
| `FileStore.FileDatabase.constructor` | main.py:9-13 | a store over an aligned file holds that file |
| `FileStore.FileDatabase.CreateDb` | main.py:15-17 | the file is empty and holds no records |
| `FileStore.FileDatabase.ClearDb` | main.py:146-148 | the file is empty and holds no records |
| `FileStore.FileDatabase.SearchId` | main.py:29-41 | the index is at most the record count; when found, the slot at the index holds the ID; on a sorted file a miss gives the insertion point, with smaller IDs before it and larger ones from it |
| `FileStore.FileDatabase.ReadInto` | main.py:48-49 | `readinto` fills the buffer with the bytes read and returns how many it read |
| `FileStore.FileDatabase.ShiftInsert` | main.py:44-54 | the shift loop leaves the old slots before the gap, then the new record, then every old slot from the gap onwards |
| `FileStore.FileDatabase.AddRecord` | main.py:27-56 | a present ID gives `False` and leaves the file unchanged; otherwise the record goes in at the insertion point; a sorted file stays sorted; `False` exactly when the ID is present on a sorted file |
| `FileStore.FileDatabase.DeleteRecord` | main.py:59-69 | the new file is the old slots whose `str(record[field])` differs from `str(value)`, byte for byte and in order; sortedness is kept |
| `FileStore.FileDatabase.FindRecord` | main.py:71-96 | on `ID` with an integer, a returned record is in the file and holds the ID, and on a sorted file the result is `None` exactly when the ID is absent; on `ID` with a text value, `TypeError` on a non-empty file; on another field, the first match in file order |
| `FileStore.FileDatabase.ScanFirst` | main.py:89-96 | the scan returns the first record in file order that matches, or `None` |
| `FileStore.FileDatabase.SearchByField` | main.py:98-108 | the results are every matching record in file order |
| `FileStore.FileDatabase.GetAllRecords` | main.py:130-139 | the records of every slot in file order |
| `GenericTable.CreateRecordFormat` | Table.py:23-37 | one code per column, `i` for `int` and `20s` for `str`; `ValueError` exactly when a column has any other type |
| `GenericTable.FormatSize` | Table.py:16 | `calcsize` of the format is the width the codec lays records out in |
| `GenericTable.WidthCount` | Table.py:23-37 | a record takes `4·#int + 20·#str` bytes |
| `GenericTable.PackBytes` | Table.py:90-100 | the packed bytes are exactly `record_size` long; `PackLayout` states where each field lies |
| `GenericTable.PackPrefix` | Table.py:95-100 | the first `j` fields of a packed record are the record packed on the first `j` columns |
| `GenericTable.PackLayout` | Table.py:95-100 | field `i` starts right after the widths of the columns before it: an `int` as its four little-endian bytes, a `str` padded with spaces and cut to exactly 20 bytes |
| `GenericTable.Pack` | Table.py:90-100 | succeeds exactly when every `int` field fits 32 bits, otherwise `struct.error`; the result is `record_size` bytes |
| `GenericTable.Unpack` | Table.py:102-112 | the decoded dictionary has exactly the declared field names as keys; `RoundTrip` states its values |
| `GenericTable.RoundTrip` | Table.py:90-112 | unpacking a packed record gives its declared fields back, for 32-bit integers and trimmed texts of at most 20 bytes |
| `GenericTable.RoundTripWhole` | Table.py:90-112 | a record with exactly the declared fields comes back whole |
| `GenericTable.KeyOf` | Table.py:81-83 | an integer key is the record's integer `ID`; a record without `ID` gives `KeyError`, and a non-integer `ID` gives `TypeError` when it is ordered against the search ID |
| `GenericTable.Search` | Table.py:75-88 | a search that succeeds returns an index between `low` and `high + 1` |
| `GenericTable.SearchErrors` | Table.py:79-83 | an error of the search is the error of a slot inside the bounds |
| `GenericTable.SearchSorted` | Table.py:77-88 | on sorted keys, with smaller keys before `low` and larger after `high`, the search lands on the ID or on the insertion point |
| `GenericTable.FindSorted` | Table.py:66-88 | on a sorted file, `find_by_id` returns an index in `[0, n]`: the slot holding the ID when present, otherwise the insertion point |
| `GenericTable.AsWrittenAdmits` | Table.py:59-60 | on a sorted non-empty file the duplicate check as written admits an ID exactly when it is at most the first ID |
| `GenericTable.TruthinessCounterexample` | Table.py:59-60 | with the single ID 7 stored, a second 7 passes the check and an absent 9 is refused |
| `GenericTable.DuplicateCheckCorrect` | Table.py:59-60 | on a sorted file, the corrected check refuses exactly the IDs present |
| `GenericTable.Table.constructor` | Table.py:5-16 | the table holds the schema, the format and the file; `record_size` is the format's size |
| `GenericTable.Table.Open` | Table.py:5-16 | `ValueError` exactly when a column type is unsupported; otherwise a table whose `record_size` is the schema's width |
| `GenericTable.Table.SlotCount` | Table.py:75 | `getsize // record_size` is the number of whole slots |
| `GenericTable.Table.Get` | Table.py:17-21 | `self[key]` raises only `OSError` or `struct.error`; `GetSlot` states when each is raised |
| `GenericTable.Table.GetSlot` | Table.py:17-21 | `self[k]` is slot `k` decoded; a negative `k` raises `OSError`; `k` past the whole slots raises `struct.error` |
| `GenericTable.Table.KeyAt` | Table.py:79-81 | probing slot `k` reads the record whose ID is the `k`-th key |
| `GenericTable.Table.ProbeKey` | Table.py:79-81 | `self[mid]["ID"]` as compared is the key of slot `mid` |
| `GenericTable.Table.FindById` | Table.py:66-88 | the loop returns what the binary search over the slot keys gives, and `ZeroDivisionError` for an empty schema |
| `GenericTable.Table.Validate` | Table.py:45-56 | `ValueError` for a missing ID, `TypeError` for a non-`int` ID, then the first missing field (`ValueError`) or mistyped field (`TypeError`) in column order; nothing exactly when the record conforms |
| `GenericTable.Table.AddRecord` | Table.py:39-64 | validation errors first: `ValueError` for a missing `ID`, `TypeError` for a non-`int` `ID`, then `ValueError` or `TypeError` for the first missing or mistyped column; then the error of `find_by_id`, then `ValueError` when it returned a non-zero index, then `struct.error`; on success exactly one packed slot is appended; on every error the file is unchanged |
| `GenericTable.Table.HoldsId` | Table.py:59 | the corrected test: the slot at the returned index exists and holds the ID |
| `GenericTable.Table.AddRecordUnique` | Table.py:39-64 | on a sorted file, `ValueError` exactly when the ID is present, otherwise the record is appended; validation and errors as in `add_record` |

## Left out

- The tkinter GUI (`DatabaseApp`, main.py:154 onward) is interface code, not storage.
- `create_backup`, `restore_from_backup` and `delete_db` only copy or remove whole files.
- `delete_record` writes to a temporary file and moves it into place. The model replaces the file content in one step, so crashes part-way are not modelled.
- File handles, `open` modes and a file that does not exist are not modelled. The store holds its content directly.
- UTF-8 is not modelled. A text is its encoded bytes, so `UnicodeDecodeError` on a slot that is not valid UTF-8 is out of scope. `strip()` is modelled only on ASCII whitespace: bytes 9-13 and 28-32.
- `struct` uses native byte order, which is fixed here as little-endian. No alignment padding arises: in main.py the two `i` fields start at offsets 0 and 24, in Table.py every field width is 4 or 20, and `struct` adds no padding after the last field.
- Python's `bool` counts as an `int` for `isinstance` and `struct.pack`. That case is not modelled: a value is an `int`, a `str`, or a value of another type.
- `FileStore.FileDatabase.Valid`: the fixed store is modelled only over files that consist of whole 58-byte slots. A trailing partial slot is not modelled. In the Python code only the scans unpack it and raise `struct.error`: `get_all_records`, `search_by_field`, `delete_record` and the non-`ID` branch of `find_record`. The binary searches of `add_record` and `find_record` read only whole slots, and the shift loop of `add_record` carries the partial tail along without raising.
- `FileStore.FileDatabase.FindRecord`, `FileStore.FileDatabase.SearchByField` and `FileStore.FileDatabase.DeleteRecord`: a field name is one of the four schema fields. The `KeyError` for any other name is not modelled.
- `FileStore.FileDatabase.AddRecord` takes a typed `Person` record whose ID and Age are already integers and whose Name and Email are texts. The `int()` conversion of other values inside `pack_record`, the `KeyError` of a record dict missing a field, and the `AttributeError` that `.encode` raises for a Name or Email that is not a `str` are not modelled.
- `GenericTable.Table.AddRecordUnique` states its exact outcome only for a non-empty schema over a file whose slot IDs strictly increase. On other files it states only the validation errors and that the file is appended to or left as it was.
- `GenericTable.Table.FindById` is related to the search function on every file. What the search finds is stated only for sorted files (`FindSorted`), because `add_record` appends and so does not keep a table sorted.
- `Table.display_records` and the module-level demonstration in Table.py are console output.
- `import file_database` names a module that is not part of this model. `FileDatabase` is defined in main.py itself.

## Findings

| source | as written | input that shows it | evidently intended | confidence | as-written member | corrected member |
|---|---|---|---|---|---|---|
| Table.py:59-60 | the duplicate check tests the truthiness of the index `find_by_id` returns, so it refuses every non-zero index and admits index 0 | a table whose only record has ID 7: adding ID 7 again is admitted (index 0), and adding the absent ID 9 is refused (index 1) | refuse exactly when the slot at the returned index holds the ID, as the docstring of `find_by_id` describes | high; not executed | `GenericTable.Table.AddRecord`, `GenericTable.AsWrittenAdmits`, `GenericTable.TruthinessCounterexample` | `GenericTable.Table.AddRecordUnique`, `GenericTable.DuplicateCheckCorrect` |
