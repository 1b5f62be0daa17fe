/** `FileDatabase` of main.py: a store whose file is a header-less run of
    58-byte slots kept in ascending ID order. */
module FileStore {
  import opened Bytes
  import opened IntCodec
  import opened PyValue
  import opened Errors
  import opened SlotFile
  import opened Seqs
  import opened FixedSchema

  /** The store object; `file` is the content of the file it names. */
  class FileDatabase {
    var file: seq<Byte>

    ghost predicate Valid()
      reads this
    {
      Aligned(file, RecordSize)
    }

    function Records(): (rs: seq<Person>)
      reads this
      requires Valid()
      ensures |rs| == |file| / RecordSize
    {
      RecordsOf(file)
    }

    /** A store over a file with the given content. */
    constructor (contents: seq<Byte>)
      requires Aligned(contents, RecordSize)
      ensures Valid() && file == contents
    {
      file := contents;
    }

    /** `create_db`: the file is created empty. */
    method CreateDb()
      modifies this
      ensures Valid() && file == [] && Records() == []
    {
      file := [];
    }

    /** `clear_db`: the file is truncated to nothing. */
    method ClearDb()
      modifies this
      ensures Valid() && file == [] && Records() == []
    {
      file := [];
    }

    /** The binary search `add_record` and `find_record` share: `index` is
        the slot holding `target` when `found`, otherwise where the search
        stopped, which on a sorted file is the insertion point. */
    method SearchId(target: int) returns (found: bool, index: nat)
      requires Valid()
      ensures index <= |Records()|
      ensures found ==> index < |Records()| && Records()[index].id == target
      ensures !found && Sorted(Records()) ==>
        && (forall i :: 0 <= i < index ==> Records()[i].id < target)
        && (forall i :: index <= i < |Records()| ==> Records()[i].id > target)
    {
      ghost var rs := Records();
      var n := |file| / RecordSize;
      var low, high := 0, n - 1;
      while low <= high
        invariant 0 <= low <= high + 1 <= n
        invariant Sorted(rs) ==> forall i :: 0 <= i < low ==> rs[i].id < target
        invariant Sorted(rs) ==> forall i :: high < i < n ==> rs[i].id > target
        decreases high - low
      {
        var mid := (low + high) / 2;
        ReadRecord(file, mid);
        var recordBytes := ReadAt(file, mid * RecordSize, RecordSize);
        var midRecord := Unpack(recordBytes);
        if midRecord.id == target {
          return true, mid;
        } else if midRecord.id < target {
          low := mid + 1;
        } else {
          high := mid - 1;
        }
      }
      return false, low;
    }

    /** `readinto(buffer)` at offset `pos`. */
    method ReadInto(buffer: array<Byte>, pos: nat) returns (n: nat)
      requires pos <= |file|
      modifies buffer
      ensures n == |ReadAt(file, pos, buffer.Length)|
      ensures buffer[..n] == ReadAt(file, pos, buffer.Length)
      ensures buffer[n..] == old(buffer[n..])
    {
      var chunk := ReadAt(file, pos, buffer.Length);
      n := |chunk|;
      for j := 0 to n
        invariant buffer[..j] == chunk[..j]
        invariant buffer[n..] == old(buffer[n..])
      {
        buffer[j] := chunk[j];
      }
    }

    /** The write loop of `add_record`: starting at slot `at`, each turn
        reads the slot in place into a buffer, writes the carried slot over
        it and carries what was read, until a read comes back empty; the
        carried slot then lands at the end of the file. */
    method ShiftInsert(at: nat, packedRecord: seq<Byte>)
      requires Valid() && at <= |file| / RecordSize && |packedRecord| == RecordSize
      modifies this
      ensures at * RecordSize <= |old(file)|
      ensures file == old(file)[..at * RecordSize] + packedRecord + old(file)[at * RecordSize..]
    {
      ghost var before := file;
      ghost var n := |Chunks(before, RecordSize)|;
      ChunksCount(before, RecordSize);
      OffsetIsProduct(n, RecordSize);
      ghost var gap := at * RecordSize;
      ghost var after := before[..gap] + packedRecord + before[gap..];
      assert after[gap + RecordSize..] == before[gap..];
      var carried := packedRecord;
      var buffer := new Byte[RecordSize];
      var pos := at * RecordSize;
      ghost var j := at;
      while true
        invariant at <= j <= n && pos == j * RecordSize && |before| == n * RecordSize
        invariant |carried| == RecordSize && buffer.Length == RecordSize
        invariant file == after[..pos] + before[pos..]
        invariant carried == after[pos..pos + RecordSize]
        decreases n - j
      {
        ShiftTurn(before, after, gap, pos, RecordSize, file, carried);
        var nextPos := pos;
        var readBytes := ReadInto(buffer, pos);
        file := WriteAt(file, nextPos, carried);
        pos := nextPos + |carried|;
        if readBytes == 0 {
          break;
        }
        carried := buffer[..readBytes];
        j := j + 1;
      }
    }

    /** `add_record`: `Ok(false)` when the binary search meets the ID;
        otherwise the record is packed and written at the insertion point,
        every later slot moving one slot towards the end, and the result is
        `Ok(true)`.  A record `struct.pack` refuses leaves the file as it
        was.  `at` is the slot the new record lands in. */
    method AddRecord(r: Person) returns (res: Result<bool>, ghost at: nat)
      requires Valid()
      modifies this
      ensures Valid()
      ensures res.Err? ==> res.error == StructError && !(InInt32(r.id) && InInt32(r.age))
      ensures res != Ok(true) ==> file == old(file)
      ensures res == Ok(false) ==> HasId(old(Records()), r.id)
      ensures Sorted(old(Records())) ==> (res == Ok(false) <==> HasId(old(Records()), r.id))
      ensures res == Ok(true) ==>
        && Pack(r).Ok? && at <= |old(Records())|
        && file == old(file)[..at * RecordSize] + Pack(r).value + old(file)[at * RecordSize..]
        && Records() == old(Records())[..at] + [Unpack(Pack(r).value)] + old(Records())[at..]
        && Records()[at].id == r.id
      ensures res == Ok(true) && Storable(r) ==> Records() == old(Records())[..at] + [r] + old(Records())[at..]
      ensures res == Ok(true) && Sorted(old(Records())) ==> Sorted(Records())
    {
      at := 0;
      var found, low := SearchId(r.id);
      if found {
        return Ok(false), at;
      }
      var p := Pack(r);
      if p.Err? {
        return Err(p.error), at;
      }
      ghost var rs := Records();
      RecordsInsert(file, p.value, low);
      ShiftInsert(low, p.value);
      at := low;
      PackKeepsId(r);
      if Storable(r) {
        RoundTrip(r);
      }
      if Sorted(rs) {
        InsertSorted(rs, low, Unpack(p.value));
      }
      return Ok(true), at;
    }

    /** `delete_record`: the file is rewritten keeping, byte for byte and in
        order, exactly the slots whose record does not match. */
    method DeleteRecord(field: Field, value: Value)
      requires Valid()
      modifies this
      ensures Valid()
      ensures Chunks(file, RecordSize) == KeptSlots(old(Chunks(file, RecordSize)), field, value)
      ensures Records() == Unmatched(old(Records()), field, value)
      ensures Sorted(old(Records())) ==> Sorted(Records())
    {
      ghost var cs := Chunks(file, RecordSize);
      ChunksCount(file, RecordSize);
      ghost var keep := SlotMatchFn(field, value);
      var matches := MatchFn(field, value);
      var temp: seq<Byte> := [];
      var pos := 0;
      ghost var k: nat := 0;
      while true
        invariant file == old(file)
        invariant k <= |cs| && pos == k * RecordSize
        invariant Aligned(temp, RecordSize)
        invariant Chunks(temp, RecordSize) == Reject(cs[..k], keep)
        decreases |cs| - k
      {
        ReadRecord(file, k);
        var recordBytes := ReadAt(file, pos, RecordSize);
        if |recordBytes| == 0 {
          break;
        }
        RejectStep(cs, k, keep);
        var record := Unpack(recordBytes);
        if !matches(record) {
          ChunksSnoc(temp, recordBytes, RecordSize);
          temp := temp + recordBytes;
        }
        pos := pos + |recordBytes|;
        k := k + 1;
      }
      assert cs[..k] == cs;
      file := temp;
      DecodeKeptSlots(cs, field, value);
      if Sorted(RecordsOf(old(file))) {
        RejectSorted(RecordsOf(old(file)), matches);
      }
    }

    /** `search_by_field`: every matching record, in file order. */
    method SearchByField(field: Field, value: Value) returns (results: seq<Person>)
      requires Valid()
      ensures results == Matching(Records(), field, value)
    {
      ghost var rs := Records();
      var matches := MatchFn(field, value);
      results := [];
      var pos := 0;
      ghost var k: nat := 0;
      while true
        invariant k <= |rs| && pos == k * RecordSize
        invariant results == Filter(rs[..k], matches)
        decreases |rs| - k
      {
        ReadRecord(file, k);
        var recordBytes := ReadAt(file, pos, RecordSize);
        if |recordBytes| == 0 {
          break;
        }
        FilterStep(rs, k, matches);
        var record := Unpack(recordBytes);
        if matches(record) {
          results := results + [record];
        }
        pos := pos + |recordBytes|;
        k := k + 1;
      }
      assert rs[..k] == rs;
    }

    /** `get_all_records`: every record, decoded in slot order. */
    method GetAllRecords() returns (records: seq<Person>)
      requires Valid()
      ensures records == Records()
    {
      ghost var rs := Records();
      records := [];
      var pos := 0;
      while true
        invariant |records| <= |rs| && pos == |records| * RecordSize
        invariant records == rs[..|records|]
        decreases |rs| - |records|
      {
        ReadRecord(file, |records|);
        var recordBytes := ReadAt(file, pos, RecordSize);
        if |recordBytes| == 0 {
          break;
        }
        assert rs[..|records| + 1] == records + [rs[|records|]];
        var record := Unpack(recordBytes);
        pos := pos + |recordBytes|;
        records := records + [record];
      }
      assert rs[..|records|] == rs;
    }

    /** `find_record`: by binary search when the field is `ID`, otherwise the
        first match of a scan.  Comparing a stored integer ID with a text
        value raises `TypeError` at the first probe. */
    method FindRecord(value: Value, field: Field) returns (r: Result<Option<Person>>)
      requires Valid()
      ensures field == Id && value.StrV? ==> r == if |Records()| == 0 then Ok(None) else Err(TypeError)
      ensures field == Id && value.IntV? ==> r.Ok?
      ensures field == Id && value.IntV? && r.value.Some? ==>
        r.value.value in Records() && r.value.value.id == value.i
      ensures field == Id && value.IntV? && Sorted(Records()) ==>
        (r.value.None? <==> !HasId(Records(), value.i))
      ensures field == Id && value.IntV? && Sorted(Records()) ==> r == Ok(First(Matching(Records(), Id, value)))
      ensures field != Id ==> r == Ok(First(Matching(Records(), field, value)))
    {
      ghost var rs := Records();
      if field == Id {
        if value.StrV? {
          if |file| / RecordSize == 0 {
            return Ok(None);
          }
          return Err(TypeError);
        }
        var found, index := SearchId(value.i);
        if found {
          ReadRecord(file, index);
          var recordBytes := ReadAt(file, index * RecordSize, RecordSize);
          var record := Unpack(recordBytes);
          if Sorted(rs) {
            SortedSingleMatch(rs, value.i, index);
          }
          return Ok(Some(record));
        }
        if Sorted(rs) {
          AbsentIdNoMatch(rs, value.i);
        }
        return Ok(None);
      }
      var first := ScanFirst(field, value);
      return Ok(first);
    }

    /** The scan `find_record` makes for any field but `ID`: slot by slot,
        stopping at the first record that matches. */
    method ScanFirst(field: Field, value: Value) returns (r: Option<Person>)
      requires Valid()
      ensures r == First(Matching(Records(), field, value))
    {
      ghost var rs := Records();
      var matches := MatchFn(field, value);
      var pos := 0;
      ghost var k: nat := 0;
      while true
        invariant k <= |rs| && pos == k * RecordSize
        invariant Filter(rs[..k], matches) == []
        decreases |rs| - k
      {
        ReadRecord(file, k);
        var recordBytes := ReadAt(file, pos, RecordSize);
        if |recordBytes| == 0 {
          break;
        }
        FilterStep(rs, k, matches);
        var record := Unpack(recordBytes);
        if matches(record) {
          FilterFirst(rs, k, matches);
          return Some(record);
        }
        pos := pos + |recordBytes|;
        k := k + 1;
      }
      assert rs[..k] == rs;
      return None;
    }
  }
}
