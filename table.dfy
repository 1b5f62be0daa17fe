/** `Table` of Table.py: a store whose schema is a list of `(name, type)`
    columns, `int` stored as a 32-bit integer and `str` as 20 bytes, and
    whose records are dictionaries from column names to values.  New records
    are appended to the end of the file. */
module GenericTable {
  import opened Bytes
  import opened IntCodec
  import opened Errors
  import opened SlotFile
  import opened Seqs

  const IntWidth: nat := 4

  /** The fixed size every `str` column gets. */
  const TextWidth: nat := 20

  /** The Python type a column declares: `int`, `str`, or any other type. */
  datatype PyType = IntType | StrType | OtherType

  /** One `(field_name, field_type)` pair of `data_format`. */
  datatype Column = Column(name: string, ty: PyType)

  /** A value in a record dictionary: an `int`, a `str` (as its UTF-8
      bytes), or a value of any other Python type. */
  datatype Cell = IntCell(i: int) | TextCell(s: seq<Byte>) | OtherCell

  /** A record: a dictionary from field names to values. */
  type Row = map<string, Cell>

  // ------------------------------------------------------ record format

  /** One struct code of `record_format`: `i`, or `<width>s`. */
  datatype Code = IntCode | TextCode(width: nat)

  predicate Supported(schema: seq<Column>) {
    forall i :: 0 <= i < |schema| ==> schema[i].ty != OtherType
  }

  function CodeOf(ty: PyType): Code
    requires ty != OtherType
  {
    if ty == IntType then IntCode else TextCode(TextWidth)
  }

  /** `record_format` is the codes of the columns, in column order. */
  predicate IsFormatOf(format: seq<Code>, schema: seq<Column>) {
    && Supported(schema) && |format| == |schema|
    && forall i :: 0 <= i < |schema| ==> format[i] == CodeOf(schema[i].ty)
  }

  /** `create_record_format`: one code per column, and `ValueError` at the
      first column whose type is neither `int` nor `str`. */
  method CreateRecordFormat(schema: seq<Column>) returns (r: Result<seq<Code>>)
    ensures r.Ok? <==> Supported(schema)
    ensures r.Err? ==> r.error == ValueError
    ensures r.Ok? ==> IsFormatOf(r.value, schema)
  {
    var format: seq<Code> := [];
    for i := 0 to |schema|
      invariant Supported(schema[..i])
      invariant IsFormatOf(format, schema[..i])
    {
      var ty := schema[i].ty;
      if ty == IntType {
        format := format + [IntCode];
      } else if ty == StrType {
        format := format + [TextCode(TextWidth)];
      } else {
        return Err(ValueError);
      }
      assert schema[..i + 1][..i] == schema[..i];
    }
    assert schema[..|schema|] == schema;
    return Ok(format);
  }

  function CodeSize(c: Code): nat {
    match c
    case IntCode => IntWidth
    case TextCode(w) => w
  }

  /** `struct.calcsize`: the sum of the code sizes.  Every offset is a
      multiple of four, so native alignment adds no padding. */
  function CalcSize(format: seq<Code>): nat {
    if format == [] then 0 else CalcSize(format[..|format| - 1]) + CodeSize(format[|format| - 1])
  }

  function FieldWidth(ty: PyType): nat
    requires ty != OtherType
  {
    CodeSize(CodeOf(ty))
  }

  /** The bytes a record of `schema` occupies. */
  function Width(schema: seq<Column>): nat
    requires Supported(schema)
  {
    if schema == [] then 0
    else Width(schema[..|schema| - 1]) + FieldWidth(schema[|schema| - 1].ty)
  }

  function Count(schema: seq<Column>, ty: PyType): nat {
    if schema == [] then 0
    else Count(schema[..|schema| - 1], ty) + if schema[|schema| - 1].ty == ty then 1 else 0
  }

  /** `record_size` is the width the codec lays records out in. */
  lemma {:induction false} FormatSize(format: seq<Code>, schema: seq<Column>)
    requires IsFormatOf(format, schema)
    ensures CalcSize(format) == Width(schema)
  {
    if schema != [] {
      var k := |schema| - 1;
      assert IsFormatOf(format[..k], schema[..k]);
      FormatSize(format[..k], schema[..k]);
    }
  }

  /** A record takes four bytes per `int` column and twenty per `str` column. */
  lemma {:induction false} WidthCount(schema: seq<Column>)
    requires Supported(schema)
    ensures Width(schema) == IntWidth * Count(schema, IntType) + TextWidth * Count(schema, StrType)
  {
    if schema != [] {
      WidthCount(schema[..|schema| - 1]);
    }
  }

  // -------------------------------------------------------------- codec

  /** `isinstance(value, field_type)` for the two supported types. */
  predicate HasType(c: Cell, ty: PyType) {
    (ty == IntType && c.IntCell?) || (ty == StrType && c.TextCell?)
  }

  /** The record has every declared field, each of the declared type. */
  predicate Conforms(schema: seq<Column>, row: Row) {
    forall i :: 0 <= i < |schema| ==> schema[i].name in row && HasType(row[schema[i].name], schema[i].ty)
  }

  /** Every `int` field fits the 32 bits `struct.pack` accepts. */
  predicate Packable(schema: seq<Column>, row: Row)
    requires Conforms(schema, row)
  {
    forall i :: 0 <= i < |schema| && schema[i].ty == IntType ==> InInt32(row[schema[i].name].i)
  }

  function EncodeField(c: Cell): (b: seq<Byte>)
    requires c.IntCell? ==> InInt32(c.i)
    requires !c.OtherCell?
  {
    match c
    case IntCell(i) => EncodeInt32(i)
    case TextCell(s) => Fit(s, TextWidth)
  }

  /** The bytes `struct.pack` produces: the fields in column order, texts
      encoded, padded with spaces and cut to twenty bytes. */
  function PackBytes(schema: seq<Column>, row: Row): (b: seq<Byte>)
    requires Supported(schema) && Conforms(schema, row) && Packable(schema, row)
    ensures |b| == Width(schema)
  {
    if schema == [] then []
    else
      var init := schema[..|schema| - 1];
      assert Conforms(init, row) && Packable(init, row);
      PackBytes(init, row) + EncodeField(row[schema[|schema| - 1].name])
  }

  /** What holds of every column holds of the first `j`. */
  lemma PrefixPackable(schema: seq<Column>, row: Row, j: nat)
    requires Supported(schema) && Conforms(schema, row) && Packable(schema, row) && j <= |schema|
    ensures Supported(schema[..j]) && Conforms(schema[..j], row) && Packable(schema[..j], row)
  {
  }

  /** The first `j` fields of a packed record are the record packed on the
      first `j` columns. */
  lemma {:induction false} PackPrefix(schema: seq<Column>, row: Row, j: nat)
    requires Supported(schema) && Conforms(schema, row) && Packable(schema, row) && j <= |schema|
    ensures Supported(schema[..j]) && Conforms(schema[..j], row) && Packable(schema[..j], row)
    ensures Width(schema[..j]) <= Width(schema)
    ensures PackBytes(schema, row)[..Width(schema[..j])] == PackBytes(schema[..j], row)
  {
    PrefixPackable(schema, row, j);
    if j == |schema| {
      assert schema[..j] == schema;
    } else {
      var init := schema[..|schema| - 1];
      PrefixPackable(schema, row, |schema| - 1);
      PackPrefix(init, row, j);
      assert init[..j] == schema[..j];
      var head := PackBytes(init, row);
      assert PackBytes(schema, row)[..|head|] == head;
    }
  }

  /** Field `i` of a packed record lies right after the fields before it:
      an `int` as its four bytes, a `str` padded with spaces and cut to
      twenty bytes. */
  lemma PackLayout(schema: seq<Column>, row: Row, i: nat)
    requires Supported(schema) && Conforms(schema, row) && Packable(schema, row) && i < |schema|
    ensures Width(schema[..i + 1]) == Width(schema[..i]) + FieldWidth(schema[i].ty) <= Width(schema)
    ensures var field := PackBytes(schema, row)[Width(schema[..i])..Width(schema[..i + 1])];
      && (schema[i].ty == IntType ==> field == EncodeInt32(row[schema[i].name].i))
      && (schema[i].ty == StrType ==> field == Fit(row[schema[i].name].s, TextWidth))
  {
    PackPrefix(schema, row, i + 1);
    var upto := schema[..i + 1];
    assert upto[..i] == schema[..i] && upto[i] == schema[i];
    assert Conforms(schema[..i], row) && Packable(schema[..i], row);
    var before := PackBytes(schema[..i], row);
    assert PackBytes(upto, row) == before + EncodeField(row[schema[i].name]);
    var b := PackBytes(schema, row);
    assert b[Width(schema[..i])..Width(upto)] == b[..Width(upto)][|before|..];
  }

  /** `pack_record`; `struct.error` when an `int` field does not fit 32 bits. */
  function Pack(schema: seq<Column>, row: Row): (r: Result<seq<Byte>>)
    requires Supported(schema) && Conforms(schema, row)
    ensures r.Ok? <==> Packable(schema, row)
    ensures r.Err? ==> r.error == StructError
    ensures r.Ok? ==> |r.value| == Width(schema)
  {
    if Packable(schema, row) then Ok(PackBytes(schema, row)) else Err(StructError)
  }

  function DecodeField(ty: PyType, b: seq<Byte>): Cell
    requires ty != OtherType && |b| == FieldWidth(ty)
  {
    if ty == IntType then IntCell(DecodeInt32(b)) else TextCell(Strip(b))
  }

  /** `unpack_record`: each field decoded, texts stripped, and entered into
      the dictionary in column order, so a later column of the same name
      overwrites an earlier one. */
  function Unpack(schema: seq<Column>, b: seq<Byte>): (r: Row)
    requires Supported(schema) && |b| == Width(schema)
    ensures r.Keys == set i | 0 <= i < |schema| :: schema[i].name
  {
    if schema == [] then map[]
    else
      var init, last := schema[..|schema| - 1], schema[|schema| - 1];
      var w := Width(init);
      Unpack(init, b[..w])[last.name := DecodeField(last.ty, b[w..])]
  }

  /** The fields of `row` the schema declares. */
  function Project(row: Row, schema: seq<Column>): Row
    requires forall i :: 0 <= i < |schema| ==> schema[i].name in row
  {
    if schema == [] then map[]
    else
      var last := schema[|schema| - 1];
      Project(row, schema[..|schema| - 1])[last.name := row[last.name]]
  }

  /** The projection keeps exactly the declared names, with their values. */
  lemma {:induction false} ProjectSpec(row: Row, schema: seq<Column>)
    requires forall i :: 0 <= i < |schema| ==> schema[i].name in row
    ensures forall n :: n in Project(row, schema) <==> exists i :: 0 <= i < |schema| && schema[i].name == n
    ensures forall n :: n in Project(row, schema) ==> Project(row, schema)[n] == row[n]
  {
    if schema != [] {
      var init := schema[..|schema| - 1];
      ProjectSpec(row, init);
      forall n | exists i :: 0 <= i < |schema| && schema[i].name == n
        ensures n in Project(row, schema)
      {
        var i :| 0 <= i < |schema| && schema[i].name == n;
        if i < |schema| - 1 {
          assert init[i].name == n;
        }
      }
    }
  }

  /** The records a slot holds unchanged: 32-bit integers, and texts of at
      most twenty bytes with no surrounding whitespace. */
  predicate Storable(schema: seq<Column>, row: Row) {
    && Conforms(schema, row)
    && forall i :: 0 <= i < |schema| ==>
         match row[schema[i].name]
         case IntCell(v) => InInt32(v)
         case TextCell(s) => |s| <= TextWidth && Trimmed(s)
         case OtherCell => false
  }

  /** Reading back a packed record gives the record's declared fields. */
  lemma {:induction false} RoundTrip(schema: seq<Column>, row: Row)
    requires Supported(schema) && Storable(schema, row)
    ensures Pack(schema, row).Ok?
    ensures Unpack(schema, Pack(schema, row).value) == Project(row, schema)
  {
    if schema != [] {
      var init, last := schema[..|schema| - 1], schema[|schema| - 1];
      assert Storable(init, row);
      RoundTrip(init, row);
      var c := row[last.name];
      var head, tail := PackBytes(init, row), EncodeField(c);
      var b := PackBytes(schema, row);
      assert b == head + tail;
      assert b[..Width(init)] == head && b[Width(init)..] == tail;
      match c
      case IntCell(v) =>
        Int32RoundTrip(v);
      case TextCell(s) =>
        StripFit(s, TextWidth);
    }
  }

  /** A record with exactly the declared fields comes back whole. */
  lemma RoundTripWhole(schema: seq<Column>, row: Row)
    requires Supported(schema) && Storable(schema, row)
    requires forall n :: n in row ==> exists i :: 0 <= i < |schema| && schema[i].name == n
    ensures Pack(schema, row).Ok? && Unpack(schema, Pack(schema, row).value) == row
  {
    RoundTrip(schema, row);
    ProjectWhole(row, schema);
  }

  /** Projecting a record on exactly its own fields gives it back. */
  lemma ProjectWhole(row: Row, schema: seq<Column>)
    requires forall i :: 0 <= i < |schema| ==> schema[i].name in row
    requires forall n :: n in row ==> exists i :: 0 <= i < |schema| && schema[i].name == n
    ensures Project(row, schema) == row
  {
    ProjectSpec(row, schema);
    var p := Project(row, schema);
    assert p.Keys == row.Keys;
  }

  // -------------------------------------------------------------- search

  /** `record["ID"]` compared with an integer: `KeyError` without an `ID`
      field; a text `ID` is unequal to any integer, and ordering it against
      one raises `TypeError`. */
  function KeyOf(row: Row): (r: Result<int>)
    ensures r.Ok? ==> "ID" in row && row["ID"] == IntCell(r.value)
    ensures r.Err? ==> r.error in {KeyError, TypeError}
  {
    if "ID" !in row then Err(KeyError)
    else
      match row["ID"]
      case IntCell(i) => Ok(i)
      case _ => Err(TypeError)
  }

  function SlotKey(schema: seq<Column>): seq<Byte> --> Result<int> {
    s requires Supported(schema) && |s| == Width(schema) => KeyOf(Unpack(schema, s))
  }

  /** The binary search of `find_by_id` over the keys of the slots, from
      the bounds `low` and `high`: the index of a probe whose key equals
      `target`, or `low` once the bounds cross; the first probe whose key
      cannot be compared raises. */
  function Search(keys: seq<Result<int>>, target: int, low: nat, high: int): (r: Result<nat>)
    requires low <= high + 1 <= |keys|
    ensures r.Ok? ==> low <= r.value <= high + 1
    decreases high - low + 1
  {
    if low > high then Ok(low)
    else
      var mid := (low + high) / 2;
      match keys[mid]
      case Err(e) => Err(e)
      case Ok(k) =>
        if k == target then Ok(mid)
        else if k < target then Search(keys, target, mid + 1, high)
        else Search(keys, target, low, mid - 1)
  }

  /** One probe of the search. */
  lemma SearchStep(keys: seq<Result<int>>, target: int, low: nat, high: int)
    requires low <= high < |keys|
    ensures var mid := (low + high) / 2;
      match keys[mid]
      case Err(e) => Search(keys, target, low, high) == Err(e)
      case Ok(k) =>
        if k == target then Search(keys, target, low, high) == Ok(mid)
        else if k < target then Search(keys, target, low, high) == Search(keys, target, mid + 1, high)
        else Search(keys, target, low, high) == Search(keys, target, low, mid - 1)
  {
  }

  /** IDs strictly increase with the slot index. */
  predicate SortedKeys(keys: seq<Result<int>>) {
    && (forall i :: 0 <= i < |keys| ==> keys[i].Ok?)
    && (forall i, j :: 0 <= i < j < |keys| ==> keys[i].value < keys[j].value)
  }

  predicate HasKey(keys: seq<Result<int>>, id: int) {
    exists i :: 0 <= i < |keys| && keys[i] == Ok(id)
  }

  /** The search can only raise what a probed slot raises. */
  lemma {:induction false} SearchErrors(keys: seq<Result<int>>, target: int, low: nat, high: int)
    requires low <= high + 1 <= |keys|
    ensures Search(keys, target, low, high).Err? ==>
      exists i :: low <= i <= high && keys[i] == Err(Search(keys, target, low, high).error)
    decreases high - low + 1
  {
    if low <= high {
      var mid := (low + high) / 2;
      if keys[mid].Ok? && keys[mid].value != target {
        if keys[mid].value < target {
          SearchErrors(keys, target, mid + 1, high);
        } else {
          SearchErrors(keys, target, low, mid - 1);
        }
      }
    }
  }

  /** Every key before slot `p` is below `target`. */
  predicate Below(keys: seq<Result<int>>, p: int, target: int) {
    forall i :: 0 <= i < p && i < |keys| ==> keys[i].Ok? && keys[i].value < target
  }

  /** Every key from slot `p` on is above `target`. */
  predicate Above(keys: seq<Result<int>>, p: int, target: int) {
    forall i :: 0 <= p <= i < |keys| ==> keys[i].Ok? && keys[i].value > target
  }

  /** Slot `p` holds `target`, or `p` is where `target` belongs. */
  predicate Lands(keys: seq<Result<int>>, p: int, target: int) {
    (0 <= p < |keys| && keys[p] == Ok(target)) || (Below(keys, p, target) && Above(keys, p, target))
  }

  /** On sorted keys, with every key before `low` below the target and
      every key after `high` above it, the search returns the index of the
      target or the point where inserting it keeps the order. */
  lemma {:induction false} SearchSorted(keys: seq<Result<int>>, target: int, low: nat, high: int)
    requires low <= high + 1 <= |keys| && SortedKeys(keys)
    requires Below(keys, low, target) && Above(keys, high + 1, target)
    ensures Search(keys, target, low, high).Ok?
    ensures Lands(keys, Search(keys, target, low, high).value, target)
    decreases high - low + 1, 1
  {
    if low > high {
      assert Search(keys, target, low, high) == Ok(low);
    } else {
      var mid := (low + high) / 2;
      if keys[mid].value < target {
        SearchRight(keys, target, low, high);
      } else if keys[mid].value > target {
        SearchLeft(keys, target, low, high);
      } else {
        assert keys[mid] == Ok(target);
      }
    }
  }

  /** The probe is below the target: the search goes on to the right. */
  lemma {:induction false} SearchRight(keys: seq<Result<int>>, target: int, low: nat, high: int)
    requires low <= high < |keys| && SortedKeys(keys)
    requires Below(keys, low, target) && Above(keys, high + 1, target)
    requires keys[(low + high) / 2].value < target
    ensures Search(keys, target, low, high).Ok?
    ensures Lands(keys, Search(keys, target, low, high).value, target)
    decreases high - low + 1, 0
  {
    var mid := (low + high) / 2;
    SortedBelow(keys, mid, target);
    assert Search(keys, target, low, high) == Search(keys, target, mid + 1, high);
    SearchSorted(keys, target, mid + 1, high);
  }

  /** The probe is above the target: the search goes on to the left. */
  lemma {:induction false} SearchLeft(keys: seq<Result<int>>, target: int, low: nat, high: int)
    requires low <= high < |keys| && SortedKeys(keys)
    requires Below(keys, low, target) && Above(keys, high + 1, target)
    requires keys[(low + high) / 2].value > target
    ensures Search(keys, target, low, high).Ok?
    ensures Lands(keys, Search(keys, target, low, high).value, target)
    decreases high - low + 1, 0
  {
    var mid := (low + high) / 2;
    SortedAbove(keys, mid, target);
    assert Search(keys, target, low, high) == Search(keys, target, low, mid - 1);
    SearchSorted(keys, target, low, mid - 1);
  }

  /** A probe below the target puts every earlier slot below it too. */
  lemma SortedBelow(keys: seq<Result<int>>, mid: nat, target: int)
    requires SortedKeys(keys) && mid < |keys| && keys[mid].value < target
    ensures Below(keys, mid + 1, target)
  {
    forall i | 0 <= i < mid + 1 && i < |keys| ensures keys[i].Ok? && keys[i].value < target {
      if i < mid {
        assert keys[i].value < keys[mid].value;
      }
    }
  }

  /** A probe above the target puts every later slot above it too. */
  lemma SortedAbove(keys: seq<Result<int>>, mid: nat, target: int)
    requires SortedKeys(keys) && mid < |keys| && keys[mid].value > target
    ensures Above(keys, mid, target)
  {
    forall i | 0 <= mid <= i < |keys| ensures keys[i].Ok? && keys[i].value > target {
      if i > mid {
        assert keys[mid].value < keys[i].value;
      }
    }
  }

  /** `find_by_id` on a sorted file: an index in `[0, n]`, that of the slot
      holding `id` when there is one, otherwise the insertion point. */
  lemma FindSorted(keys: seq<Result<int>>, id: int)
    requires SortedKeys(keys)
    ensures Search(keys, id, 0, |keys| - 1).Ok?
    ensures var p := Search(keys, id, 0, |keys| - 1).value;
      && p <= |keys|
      && (HasKey(keys, id) <==> p < |keys| && keys[p] == Ok(id))
      && (!HasKey(keys, id) ==>
            (forall i :: 0 <= i < p ==> keys[i].value < id) && (forall i :: p <= i < |keys| ==> keys[i].value > id))
  {
    SearchSorted(keys, id, 0, |keys| - 1);
  }

  // ------------------------------------------------- duplicate check

  /** The duplicate check as written: `if self.find_by_id(id):`, which
      rejects whenever the returned index is not zero. */
  predicate RejectsAsWritten(found: nat) {
    found != 0
  }

  /** On a sorted, non-empty file the check as written lets a record in
      exactly when its ID is at most the first ID: a copy of the first ID
      gets in, and every ID above it is turned away. */
  lemma AsWrittenAdmits(keys: seq<Result<int>>, id: int)
    requires SortedKeys(keys) && |keys| > 0
    ensures Search(keys, id, 0, |keys| - 1).Ok?
    ensures !RejectsAsWritten(Search(keys, id, 0, |keys| - 1).value) <==> id <= keys[0].value
  {
    FindSorted(keys, id);
    var p := Search(keys, id, 0, |keys| - 1).value;
    if p > 0 && HasKey(keys, id) {
      assert keys[0].value < keys[p].value;
    }
  }

  /** A file holding the single ID 7: adding 7 again passes the check, and
      adding the absent 9 is refused. */
  lemma TruthinessCounterexample()
    ensures HasKey([Ok(7)], 7) && !RejectsAsWritten(Search([Ok(7)], 7, 0, 0).value)
    ensures !HasKey([Ok(7)], 9) && RejectsAsWritten(Search([Ok(7)], 9, 0, 0).value)
  {
    assert [Ok(7)][0] == Ok(7);
  }

  /** The check the docstring describes: reject when the slot the search
      lands on holds the ID. */
  predicate RejectsDuplicate(keys: seq<Result<int>>, found: nat, id: int) {
    found < |keys| && keys[found] == Ok(id)
  }

  /** On a sorted file the corrected check rejects exactly the IDs present. */
  lemma DuplicateCheckCorrect(keys: seq<Result<int>>, id: int)
    requires SortedKeys(keys)
    ensures Search(keys, id, 0, |keys| - 1).Ok?
    ensures RejectsDuplicate(keys, Search(keys, id, 0, |keys| - 1).value, id) <==> HasKey(keys, id)
  {
    FindSorted(keys, id);
  }

  // --------------------------------------------------------------- table

  class Table {
    const schema: seq<Column>
    const format: seq<Code>
    const recordSize: nat
    var file: seq<Byte>

    ghost predicate Valid()
      reads this
    {
      IsFormatOf(format, schema) && recordSize == Width(schema)
    }

    /** A table over a file with the given content, once the record format
        has been built. */
    constructor (contents: seq<Byte>, schema: seq<Column>, format: seq<Code>)
      requires IsFormatOf(format, schema)
      ensures Valid() && this.schema == schema && this.format == format && file == contents
    {
      FormatSize(format, schema);
      this.schema := schema;
      this.format := format;
      this.recordSize := CalcSize(format);
      this.file := contents;
    }

    /** `Table(file_name, data_format)`: `ValueError` for a column of an
        unsupported type, otherwise a table over the file. */
    static method Open(contents: seq<Byte>, schema: seq<Column>) returns (r: Result<Table>)
      ensures r.Err? <==> !Supported(schema)
      ensures r.Err? ==> r.error == ValueError
      ensures r.Ok? ==> && fresh(r.value) && r.value.Valid()
                        && r.value.schema == schema && r.value.file == contents
                        && r.value.recordSize == Width(schema)
    {
      var format := CreateRecordFormat(schema);
      if format.Err? {
        return Err(format.error);
      }
      var t := new Table(contents, schema, format.value);
      return Ok(t);
    }

    /** The whole slots of the file. */
    function Slots(): (ss: seq<seq<Byte>>)
      reads this
      requires Valid() && recordSize > 0
    {
      Chunks(file, recordSize)
    }

    /** What comparing each slot's `ID` with an integer gives. */
    function Keys(): (ks: seq<Result<int>>)
      reads this
      requires Valid() && recordSize > 0
      ensures |ks| == |Slots()|
    {
      Map(Slots(), SlotKey(schema))
    }

    /** The file size divided by the record size, rounded down: the number
        of whole slots. */
    function SlotCount(): (n: nat)
      reads this
      requires Valid() && recordSize > 0
      ensures n == |Keys()|
    {
      ChunksCount(file, recordSize);
      |file| / recordSize
    }

    /** `self[key]`: the `record_size` bytes at offset `key * record_size`,
        unpacked.  A negative offset makes `seek` raise; a read that comes
        back short makes `struct.unpack` raise. */
    function Get(key: int): (r: Result<Row>)
      reads this
      requires Valid()
      ensures r.Err? ==> r.error in {OSError, StructError}
    {
      if key * recordSize < 0 then Err(OSError)
      else
        var pos := key * recordSize;
        var bytes := if pos <= |file| then ReadAt(file, pos, recordSize) else [];
        if |bytes| == recordSize then Ok(Unpack(schema, bytes)) else Err(StructError)
    }

    /** `self[k]` is slot `k` decoded while there is one; before the file
        it raises `OSError`, past the whole slots `struct.error`. */
    lemma GetSlot(k: int)
      requires Valid() && recordSize > 0
      ensures k < 0 ==> Get(k) == Err(OSError)
      ensures 0 <= k < |Slots()| ==> Get(k) == Ok(Unpack(schema, Slots()[k]))
      ensures 0 <= k < |Slots()| ==> KeyOf(Get(k).value) == Keys()[k]
      ensures |Slots()| <= k ==> Get(k) == Err(StructError)
    {
      if k < 0 {
        NegativeOffset(k, recordSize);
      } else {
        OffsetIsProduct(k, recordSize);
        if k < |Slots()| {
          ReadChunk(file, recordSize, k);
          MapAt(Slots(), SlotKey(schema), k);
        } else if Offset(k, recordSize) <= |file| {
          ReadPastSlots(file, recordSize, k);
        }
      }
    }

    /** Probing slot `k` gives the key of slot `k`. */
    lemma KeyAt(k: nat)
      requires Valid() && recordSize > 0 && k < |Keys()|
      ensures Get(k).Ok? && KeyOf(Get(k).value) == Keys()[k]
    {
      GetSlot(k);
    }

    /** What `find_by_id` returns or raises: `ZeroDivisionError` for an
        empty schema, otherwise the binary search over every slot. */
    function Find(id: int): Result<nat>
      reads this
      requires Valid()
    {
      if recordSize == 0 then Err(ZeroDivisionError)
      else Search(Keys(), id, 0, |Keys()| - 1)
    }

    /** `find_by_id`. */
    method FindById(searchId: int) returns (r: Result<nat>)
      requires Valid()
      ensures r == Find(searchId)
    {
      if recordSize == 0 {
        return Err(ZeroDivisionError);
      }
      ghost var keys := Keys();
      var low, high := 0, SlotCount() - 1;
      ghost var goal := Search(keys, searchId, low, high);
      while low <= high
        invariant 0 <= low <= high + 1 <= |keys|
        invariant Search(keys, searchId, low, high) == goal
        decreases high - low
      {
        var mid := (low + high) / 2;
        SearchStep(keys, searchId, low, high);
        var key := ProbeKey(mid);
        if key.Err? {
          return Err(key.error);
        }
        if key.value == searchId {
          return Ok(mid);
        } else if key.value < searchId {
          low := mid + 1;
        } else {
          high := mid - 1;
        }
      }
      return Ok(low);
    }

    /** `self[mid]["ID"]` as the comparisons see it: the key of slot `mid`. */
    method ProbeKey(mid: nat) returns (key: Result<int>)
      requires Valid() && recordSize > 0 && mid < |Keys()|
      ensures key == Keys()[mid]
    {
      KeyAt(mid);
      var record := Get(mid).value;
      key := KeyOf(record);
    }

    /** The checks `add_record` makes before touching the file: an `ID`
        field that is an `int`, then every declared field in column order,
        `ValueError` for the first one missing and `TypeError` for the first
        one of the wrong type. */
    method Validate(row: Row) returns (err: Option<PyError>)
      requires Valid()
      ensures err.None? <==> HasIntId(row) && Conforms(schema, row)
      ensures "ID" !in row ==> err == Some(ValueError)
      ensures "ID" in row && !row["ID"].IntCell? ==> err == Some(TypeError)
      ensures HasIntId(row) && err.Some? ==>
        exists i :: 0 <= i < |schema| && Conforms(schema[..i], row) && FieldFails(schema[i], row, err.value)
    {
      if "ID" !in row {
        return Some(ValueError);
      }
      if !row["ID"].IntCell? {
        return Some(TypeError);
      }
      for i := 0 to |schema|
        invariant Conforms(schema[..i], row)
      {
        var column := schema[i];
        if column.name !in row {
          return Some(ValueError);
        }
        if !HasType(row[column.name], column.ty) {
          return Some(TypeError);
        }
        assert schema[..i + 1][..i] == schema[..i];
      }
      assert schema[..|schema|] == schema;
      return None;
    }

    /** `add_record`, as written: the record is validated, the duplicate
        check rejects when `find_by_id` returns a non-zero index, and the
        packed record is appended.  Every error leaves the file as it was. */
    method AddRecord(row: Row) returns (r: Result<()>)
      requires Valid()
      modifies this
      ensures Valid()
      ensures !(HasIntId(row) && Conforms(schema, row)) ==> r.Err? && r.error in {ValueError, TypeError}
      ensures "ID" !in row ==> r == Err(ValueError)
      ensures "ID" in row && !row["ID"].IntCell? ==> r == Err(TypeError)
      ensures HasIntId(row) && !Conforms(schema, row) ==>
        r.Err? && exists i :: 0 <= i < |schema| && Conforms(schema[..i], row) && FieldFails(schema[i], row, r.error)
      ensures HasIntId(row) && Conforms(schema, row) ==>
        match old(Find(row["ID"].i))
        case Err(e) => r == Err(e)
        case Ok(p) =>
          if RejectsAsWritten(p) then r == Err(ValueError)
          else r == (if Packable(schema, row) then Ok(()) else Err(StructError))
      ensures r.Err? ==> file == old(file)
      ensures r.Ok? ==> && Conforms(schema, row) && Packable(schema, row)
                        && file == old(file) + PackBytes(schema, row)
      ensures r.Ok? && recordSize > 0 && Aligned(old(file), recordSize) ==>
        Aligned(file, recordSize) && Slots() == old(Slots()) + [PackBytes(schema, row)]
    {
      var bad := Validate(row);
      if bad.Some? {
        return Err(bad.value);
      }
      var index := FindById(row["ID"].i);
      if index.Err? {
        return Err(index.error);
      }
      if index.value != 0 {
        return Err(ValueError);
      }
      var packed := Pack(schema, row);
      if packed.Err? {
        return Err(packed.error);
      }
      if recordSize > 0 && Aligned(file, recordSize) {
        ChunksSnoc(file, packed.value, recordSize);
      }
      file := file + packed.value;
      return Ok(());
    }

    /** The corrected duplicate test: slot `index` exists and holds `id`. */
    method HoldsId(index: nat, id: int) returns (duplicate: bool)
      requires Valid() && recordSize > 0
      ensures duplicate == RejectsDuplicate(Keys(), index, id)
    {
      if index >= SlotCount() {
        return false;
      }
      KeyAt(index);
      var record := Get(index).value;
      return KeyOf(record) == Ok(id);
    }

    /** `add_record` with the duplicate check the docstring describes: the
        record is refused when the slot the search lands on holds its ID.
        On a sorted file this refuses exactly the IDs already present. */
    method AddRecordUnique(row: Row) returns (r: Result<()>)
      requires Valid()
      modifies this
      ensures Valid()
      ensures !(HasIntId(row) && Conforms(schema, row)) ==> r.Err? && r.error in {ValueError, TypeError}
      ensures "ID" !in row ==> r == Err(ValueError)
      ensures "ID" in row && !row["ID"].IntCell? ==> r == Err(TypeError)
      ensures HasIntId(row) && !Conforms(schema, row) ==>
        r.Err? && exists i :: 0 <= i < |schema| && Conforms(schema[..i], row) && FieldFails(schema[i], row, r.error)
      ensures HasIntId(row) && Conforms(schema, row) && recordSize > 0 && SortedKeys(old(Keys())) ==>
        r == if HasKey(old(Keys()), row["ID"].i) then Err(ValueError)
             else if Packable(schema, row) then Ok(())
             else Err(StructError)
      ensures r.Err? ==> file == old(file)
      ensures r.Ok? ==> && Conforms(schema, row) && Packable(schema, row)
                        && file == old(file) + PackBytes(schema, row)
    {
      var bad := Validate(row);
      if bad.Some? {
        return Err(bad.value);
      }
      var id := row["ID"].i;
      var index := FindById(id);
      if recordSize > 0 && SortedKeys(Keys()) {
        DuplicateCheckCorrect(Keys(), id);
      }
      if index.Err? {
        return Err(index.error);
      }
      var duplicate := HoldsId(index.value, id);
      if duplicate {
        return Err(ValueError);
      }
      var packed := Pack(schema, row);
      if packed.Err? {
        return Err(packed.error);
      }
      file := file + packed.value;
      return Ok(());
    }
  }

  predicate HasIntId(row: Row) {
    "ID" in row && row["ID"].IntCell?
  }

  /** How a column fails the validation: `ValueError` when the field is
      missing, `TypeError` when its value has the wrong type. */
  predicate FieldFails(column: Column, row: Row, e: PyError) {
    if column.name !in row then e == ValueError
    else !HasType(row[column.name], column.ty) && e == TypeError
  }

  lemma NegativeOffset(k: int, size: nat)
    requires k < 0 && size > 0
    ensures k * size < 0
  {
  }
}
