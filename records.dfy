/** The fixed record layout of main.py: people records `ID:int32, Name:20
    bytes, Age:int32, Email:30 bytes` packed into 58-byte slots, and what a
    file of such slots holds. */
module FixedSchema {
  import opened Bytes
  import opened IntCodec
  import opened PyValue
  import opened Errors
  import opened SlotFile
  import opened Seqs

  const NameWidth: nat := 20
  const EmailWidth: nat := 30

  /** `struct.calcsize('i20si30s')`: 4 + 20 + 4 + 30, no alignment padding. */
  const RecordSize: nat := 58

  datatype Person = Person(id: int, name: seq<Byte>, age: int, email: seq<Byte>)

  /** The field names the store compares on. */
  datatype Field = Id | Name | Age | Email

  // ---------------------------------------------------------------- codec

  /** `pack_record`: ID at bytes 0-3, Name at 4-23, Age at 24-27, Email at
      28-57, integers little-endian, texts space-padded or cut to width.
      `struct.pack` raises `struct.error` for an integer outside 32 bits. */
  function Pack(r: Person): (b: Result<seq<Byte>>)
    ensures b.Ok? <==> InInt32(r.id) && InInt32(r.age)
    ensures b.Err? ==> b.error == StructError
    ensures b.Ok? ==> |b.value| == RecordSize
    ensures b.Ok? ==> b.value[0..4] == EncodeInt32(r.id) && b.value[4..24] == Fit(r.name, NameWidth)
    ensures b.Ok? ==> b.value[24..28] == EncodeInt32(r.age) && b.value[28..58] == Fit(r.email, EmailWidth)
  {
    if InInt32(r.id) && InInt32(r.age) then
      Ok(EncodeInt32(r.id) + Fit(r.name, NameWidth) + EncodeInt32(r.age) + Fit(r.email, EmailWidth))
    else
      Err(StructError)
  }

  /** `unpack_record`: the two integers, and the two texts with surrounding
      whitespace stripped. */
  function Unpack(b: seq<Byte>): (r: Person)
    requires |b| == RecordSize
    ensures InInt32(r.id) && InInt32(r.age)
    ensures |r.name| <= NameWidth && |r.email| <= EmailWidth
  {
    Person(DecodeInt32(b[0..4]), Strip(b[4..24]), DecodeInt32(b[24..28]), Strip(b[28..58]))
  }

  /** The records a slot can hold unchanged. */
  predicate Storable(r: Person) {
    && InInt32(r.id) && InInt32(r.age)
    && |r.name| <= NameWidth && Trimmed(r.name)
    && |r.email| <= EmailWidth && Trimmed(r.email)
  }

  /** Every slot decodes to a record a slot can hold. */
  lemma UnpackStorable(b: seq<Byte>)
    requires |b| == RecordSize
    ensures Storable(Unpack(b))
  {
    StripTrimmed(b[4..24]);
    StripTrimmed(b[28..58]);
  }

  /** Reading back a packed record gives the record, for every record a
      slot can hold. */
  lemma RoundTrip(r: Person)
    requires Storable(r)
    ensures Pack(r).Ok? && Unpack(Pack(r).value) == r
  {
    Int32RoundTrip(r.id);
    Int32RoundTrip(r.age);
    StripFit(r.name, NameWidth);
    StripFit(r.email, EmailWidth);
  }

  /** Packing never changes the key: whatever happens to the texts, the ID
      read back is the ID written. */
  lemma PackKeepsId(r: Person)
    requires Pack(r).Ok?
    ensures Unpack(Pack(r).value).id == r.id
  {
    Int32RoundTrip(r.id);
  }

  // ------------------------------------------------------- file contents

  predicate AllSlots(ss: seq<seq<Byte>>) {
    forall i :: 0 <= i < |ss| ==> |ss[i]| == RecordSize
  }

  /** Each slot decoded, in order. */
  function Decode(ss: seq<seq<Byte>>): (rs: seq<Person>)
    requires AllSlots(ss)
    ensures |rs| == |ss|
  {
    Map(ss, Unpack)
  }

  /** The records of a file, in slot order. */
  function RecordsOf(f: seq<Byte>): (rs: seq<Person>)
    requires Aligned(f, RecordSize)
    ensures |rs| == |f| / RecordSize
  {
    ChunksCount(f, RecordSize);
    Decode(Chunks(f, RecordSize))
  }

  /** Reading the slot at offset `58 * k` yields record `k` while there is
      one, and nothing once every record has been read. */
  lemma ReadRecord(f: seq<Byte>, k: nat)
    requires Aligned(f, RecordSize) && k <= |f| / RecordSize
    ensures k * RecordSize <= |f| && |Chunks(f, RecordSize)| == |f| / RecordSize
    ensures k < |f| / RecordSize ==>
      && ReadAt(f, k * RecordSize, RecordSize) == Chunks(f, RecordSize)[k]
      && |Chunks(f, RecordSize)[k]| == RecordSize
      && Unpack(Chunks(f, RecordSize)[k]) == RecordsOf(f)[k]
    ensures k == |f| / RecordSize ==> ReadAt(f, k * RecordSize, RecordSize) == []
  {
    ChunksCount(f, RecordSize);
    OffsetIsProduct(k, RecordSize);
    ReadSlot(f, RecordSize, k);
    if k < |f| / RecordSize {
      MapAt(Chunks(f, RecordSize), Unpack, k);
    }
  }

  /** The file invariant the store relies on: IDs strictly increase with the
      slot index, so no two records share an ID. */
  predicate Sorted(rs: seq<Person>) {
    forall i, j :: 0 <= i < j < |rs| ==> rs[i].id < rs[j].id
  }

  predicate HasId(rs: seq<Person>, id: int) {
    exists i :: 0 <= i < |rs| && rs[i].id == id
  }

  /** `record[field]`. */
  function FieldValue(r: Person, field: Field): Value {
    match field
    case Id => IntV(r.id)
    case Name => StrV(r.name)
    case Age => IntV(r.age)
    case Email => StrV(r.email)
  }

  /** `str(record[field]) == str(value)`: the comparison `delete_record`,
      `search_by_field` and `find_record` make on a decoded record. */
  predicate Matches(r: Person, field: Field, value: Value) {
    Str(FieldValue(r, field)) == Str(value)
  }

  function MatchFn(field: Field, value: Value): Person -> bool {
    x => Matches(x, field, value)
  }

  /** The same comparison made on a slot, after `unpack_record`. */
  function SlotMatchFn(field: Field, value: Value): seq<Byte> -> bool {
    s => |s| == RecordSize && MatchFn(field, value)(Unpack(s))
  }

  /** The records that match, in file order. */
  function Matching(rs: seq<Person>, field: Field, value: Value): seq<Person> {
    Filter(rs, MatchFn(field, value))
  }

  /** The records that do not match, in file order. */
  function Unmatched(rs: seq<Person>, field: Field, value: Value): seq<Person> {
    Reject(rs, MatchFn(field, value))
  }

  /** The slots whose record does not match, byte for byte and in file order. */
  function KeptSlots(ss: seq<seq<Byte>>, field: Field, value: Value): seq<seq<Byte>> {
    Reject(ss, SlotMatchFn(field, value))
  }

  /** Keeping slots byte for byte keeps exactly the unmatched records. */
  lemma DecodeKeptSlots(ss: seq<seq<Byte>>, field: Field, value: Value)
    requires AllSlots(ss)
    ensures AllSlots(KeptSlots(ss, field, value))
    ensures Decode(KeptSlots(ss, field, value)) == Unmatched(Decode(ss), field, value)
  {
    MapReject(ss, Unpack, SlotMatchFn(field, value), MatchFn(field, value));
  }

  /** Removing records never breaks the ID order. */
  lemma {:induction false} RejectSorted(rs: seq<Person>, keep: Person -> bool)
    requires Sorted(rs)
    ensures Sorted(Reject(rs, keep))
  {
    if rs != [] {
      var init := rs[..|rs| - 1];
      RejectSorted(init, keep);
      var u := Reject(init, keep);
      RejectMembers(init, keep);
      forall i | 0 <= i < |u| ensures u[i].id < rs[|rs| - 1].id {
        assert u[i] in init;
      }
    }
  }

  /** Selecting records never breaks the ID order either. */
  lemma {:induction false} FilterSorted(rs: seq<Person>, keep: Person -> bool)
    requires Sorted(rs)
    ensures Sorted(Filter(rs, keep))
  {
    if rs != [] {
      var init := rs[..|rs| - 1];
      FilterSorted(init, keep);
      var m := Filter(init, keep);
      FilterMembers(init, keep);
      forall i | 0 <= i < |m| ensures m[i].id < rs[|rs| - 1].id {
        assert m[i] in init;
      }
    }
  }

  /** Comparing the text of the ID field with the text of an integer is
      comparing the integers. */
  lemma MatchesId(x: Person, id: int)
    ensures MatchFn(Id, IntV(id))(x) <==> x.id == id
  {
    DecimalInjective(x.id, id);
  }

  /** Nothing matches an ID no record has. */
  lemma AbsentIdNoMatch(rs: seq<Person>, id: int)
    requires !HasId(rs, id)
    ensures Matching(rs, Id, IntV(id)) == []
  {
    forall i | 0 <= i < |rs| ensures !MatchFn(Id, IntV(id))(rs[i]) {
      MatchesId(rs[i], id);
    }
    FilterNone(rs, MatchFn(Id, IntV(id)));
  }

  /** On a sorted file the records matching an ID are the one at its index. */
  lemma SortedSingleMatch(rs: seq<Person>, id: int, i: nat)
    requires Sorted(rs) && i < |rs| && rs[i].id == id
    ensures Matching(rs, Id, IntV(id)) == [rs[i]]
  {
    var keep := MatchFn(Id, IntV(id));
    forall j | 0 <= j < |rs| ensures keep(rs[j]) <==> j == i {
      MatchesId(rs[j], id);
      if j < i {
        assert rs[j].id < rs[i].id;
      } else if j > i {
        assert rs[i].id < rs[j].id;
      }
    }
    FilterSingle(rs, keep, i);
  }

  /** Deleting by ID on a sorted file removes exactly the record with that
      ID, if there is one, and keeps every other record in order. */
  lemma DeleteById(rs: seq<Person>, id: int)
    requires Sorted(rs)
    ensures forall x :: x in Unmatched(rs, Id, IntV(id)) <==> x in rs && x.id != id
    ensures |Unmatched(rs, Id, IntV(id))| == if HasId(rs, id) then |rs| - 1 else |rs|
  {
    var keep := MatchFn(Id, IntV(id));
    forall x | x in rs ensures keep(x) <==> x.id == id {
      MatchesId(x, id);
    }
    RejectMembers(rs, keep);
    FilterRejectPartition(rs, keep);
    var m, u := Filter(rs, keep), Reject(rs, keep);
    assert |multiset(m)| + |multiset(u)| == |rs| by {
      assert |multiset(m) + multiset(u)| == |multiset(rs)|;
    }
    if HasId(rs, id) {
      var i :| 0 <= i < |rs| && rs[i].id == id;
      SortedSingleMatch(rs, id, i);
    } else {
      AbsentIdNoMatch(rs, id);
    }
  }

  /** The first match, as `find_record` returns it. */
  function First(m: seq<Person>): (r: Option<Person>)
    ensures r.None? <==> m == []
    ensures r.Some? ==> r.value == m[0]
  {
    if m == [] then None else Some(m[0])
  }

  /** Opening a slot at the insertion point keeps the IDs strictly increasing. */
  lemma InsertSorted(rs: seq<Person>, at: nat, x: Person)
    requires Sorted(rs) && at <= |rs|
    requires forall i :: 0 <= i < at ==> rs[i].id < x.id
    requires forall i :: at <= i < |rs| ==> rs[i].id > x.id
    ensures Sorted(rs[..at] + [x] + rs[at..])
  {
  }

  /** The records of a file with a slot spliced in at slot boundary `at`. */
  lemma RecordsInsert(f: seq<Byte>, c: seq<Byte>, at: nat)
    requires Aligned(f, RecordSize) && |c| == RecordSize && at <= |f| / RecordSize
    ensures at * RecordSize <= |f|
    ensures Aligned(f[..at * RecordSize] + c + f[at * RecordSize..], RecordSize)
    ensures RecordsOf(f[..at * RecordSize] + c + f[at * RecordSize..])
         == RecordsOf(f)[..at] + [Unpack(c)] + RecordsOf(f)[at..]
  {
    ChunksCount(f, RecordSize);
    OffsetIsProduct(at, RecordSize);
    ChunksInsert(f, c, RecordSize, at);
    var cs := Chunks(f, RecordSize);
    var pre, post := cs[..at], cs[at..];
    assert cs == pre + post;
    MapAppend(pre, post, Unpack);
    MapAppend(pre, [c], Unpack);
    MapAppend(pre + [c], post, Unpack);
    assert Map([c], Unpack) == [Unpack(c)] by {
      assert [c][..0] == [];
    }
  }
}
