/** Walking the central directory and picking the one METADATA member. */
module CentralDirectory {
  import opened Wrappers
  import opened Bytes
  import opened Text
  import opened ZipFormat
  import opened ZipFailures

  /** How member names are decoded: raw bytes and the UTF-8 flag, or no name. */
  type Decoder = (bytes, bool) -> Option<string>

  datatype Member = Member(
    name: string, flags: nat, method_: nat, crc: nat,
    compressedSize: nat, uncompressedSize: nat, localOffset: nat)

  function DecodeName(decode: Decoder, rawName: bytes, flags: nat): Result<string, Failure> {
    match decode(rawName, Bit(flags, 0x800))
    case Some(name) => Success(name)
    case None => Failure(InvalidMemberName)
  }

  predicate IsMetadataName(name: string) {
    var parts := Split(name, {'/'});
    && |parts| == 2
    && EndsWith(parts[0], ".dist-info")
    && parts[0] != ".dist-info"
    && parts[1] == "METADATA"
  }

  const METADATA_SUFFIX := ".dist-info/METADATA"

  lemma MetadataNameSound(name: string) returns (stem: string)
    requires IsMetadataName(name)
    ensures stem != [] && '/' !in stem && name == stem + METADATA_SUFFIX
  {
    SplitInTwo(name, '/');
    var directory := Split(name, {'/'})[0];
    stem := directory[..|directory| - 10];
    DirectoryOf(directory, stem);
  }

  lemma DirectoryOf(directory: string, stem: string)
    requires EndsWith(directory, ".dist-info") && stem == directory[..|directory| - 10]
    ensures directory + ['/'] + "METADATA" == stem + METADATA_SUFFIX
  {
    assert directory == stem + ".dist-info";
    assert METADATA_SUFFIX == ".dist-info" + ['/'] + "METADATA";
  }

  lemma SuffixEnds(s: string, suffix: string)
    ensures EndsWith(s + suffix, suffix)
  {
  }

  lemma TwoParts(a: string, b: string)
    requires '/' !in a && '/' !in b
    ensures Split(a + ['/'] + b, {'/'}) == [a, b]
  {
    SplitAt(a, '/', b, {'/'});
    SplitWhole(b, {'/'});
  }

  lemma MetadataNameComplete(stem: string)
    requires stem != [] && '/' !in stem
    ensures IsMetadataName(stem + METADATA_SUFFIX)
  {
    var directory := stem + ".dist-info";
    SuffixEnds(stem, ".dist-info");
    TwoParts(directory, "METADATA");
    hide Split;
    hide EndsWith;
    assert METADATA_SUFFIX == ".dist-info" + (['/'] + "METADATA");
    assert stem + (".dist-info" + (['/'] + "METADATA")) == directory + ['/'] + "METADATA";
    assert |directory| > |".dist-info"|;
  }

  /** Exactly the names `<stem>.dist-info/METADATA` with a non-empty, slash-free stem. */
  lemma MetadataNameShape(name: string)
    ensures IsMetadataName(name)
      <==> exists stem: string :: stem != [] && '/' !in stem && name == stem + METADATA_SUFFIX
  {
    if IsMetadataName(name) {
      var stem := MetadataNameSound(name);
    }
    if stem: string :| stem != [] && '/' !in stem && name == stem + METADATA_SUFFIX {
      MetadataNameComplete(stem);
    }
  }

  // --------------------------------------------------------------- extra fields

  datatype ExtraField = ExtraField(id: nat, payload: bytes) {
    ghost predicate Fits() {
      id < LIMIT16 && |payload| < LIMIT16
    }

    ghost function Encode(): bytes
      requires Fits()
    {
      Words([id, |payload|]) + payload
    }
  }

  const ZIP64_ID := 1

  ghost function EncodeFields(fields: seq<ExtraField>): bytes
    requires forall f <- fields :: f.Fits()
  {
    if fields == [] then [] else fields[0].Encode() + EncodeFields(fields[1..])
  }

  /** Whether a ZIP64 field comes up before the extra data ends or breaks. */
  function Zip64Spec(extra: bytes): Result<bool, Failure> {
    if extra == [] then Success(false)
    else if |extra| < 4 || 4 + U16(extra, 2) > |extra| then Failure(MalformedExtraField)
    else if U16(extra, 0) == ZIP64_ID then Success(true)
    else Zip64Spec(extra[4 + U16(extra, 2)..])
  }

  method HasZip64Extra(extra: bytes) returns (result: Result<bool, Failure>)
    ensures result == Zip64Spec(extra)
  {
    var offset := 0;
    while offset < |extra|
      invariant offset <= |extra| && Zip64Spec(extra) == Zip64Spec(extra[offset..])
    {
      if |extra| - offset < 4 {
        return Failure(MalformedExtraField);
      }
      var fieldId, size := U16(extra, offset), U16(extra, offset + 2);
      assert U16(extra[offset..], 0) == fieldId && U16(extra[offset..], 2) == size;
      offset := offset + 4;
      if offset + size > |extra| {
        return Failure(MalformedExtraField);
      }
      if fieldId == ZIP64_ID {
        return Success(true);
      }
      assert extra[offset - 4..][4 + size..] == extra[offset + size..];
      offset := offset + size;
    }
    return Success(false);
  }

  ghost predicate PlainFields(fields: seq<ExtraField>) {
    forall f <- fields :: f.Fits() && f.id != 1
  }

  /** The extra data is a list of fields, none of them ZIP64's. */
  ghost predicate PlainExtra(extra: bytes) {
    exists fields :: PlainFields(fields) && extra == EncodeFields(fields)
  }

  lemma {:induction false} Zip64SkipsPlain(fields: seq<ExtraField>, rest: bytes)
    requires PlainFields(fields)
    ensures Zip64Spec(EncodeFields(fields) + rest) == Zip64Spec(rest)
  {
    if fields == [] {
      assert EncodeFields(fields) + rest == rest;
    } else {
      var f := fields[0];
      ghost var tail := EncodeFields(fields[1..]) + rest;
      assert EncodeFields(fields) + rest == f.Encode() + tail;
      FieldInFront(f, tail);
      Zip64SkipsPlain(fields[1..], rest);
    }
  }

  /** What the reader sees of a written field in front of other bytes. */
  lemma FieldInFront(f: ExtraField, rest: bytes)
    requires f.Fits()
    ensures var all := f.Encode() + rest;
      && U16(all, 0) == f.id && U16(all, 2) == |f.payload|
      && all[4 + |f.payload|..] == rest && f.Encode() <= all
  {
    ghost var all, ws := f.Encode() + rest, [f.id, |f.payload|];
    assert all[0..4] == Words(ws);
    ReadsWord(all, 0, ws, 0);
    ReadsWord(all, 0, ws, 1);
  }

  /** The field that the reader sees at the front of the bytes, and its encoding. */
  lemma FrontField(extra: bytes) returns (f: ExtraField)
    requires |extra| >= 4 && 4 + U16(extra, 2) <= |extra|
    ensures f.Fits() && f.id == U16(extra, 0) && |f.payload| == U16(extra, 2)
    ensures extra == f.Encode() + extra[4 + U16(extra, 2)..]
  {
    f := ExtraField(U16(extra, 0), extra[4..4 + U16(extra, 2)]);
    WritesWords(extra, 0, [f.id, |f.payload|]);
    assert extra == extra[0..4] + f.payload + extra[4 + |f.payload|..];
  }

  ghost predicate StartsWithZip64(rest: bytes) {
    exists f: ExtraField :: f.Fits() && f.id == 1 && f.Encode() <= rest
  }

  lemma {:induction false} Zip64Unpack(extra: bytes) returns (fields: seq<ExtraField>, rest: bytes)
    requires Zip64Spec(extra).Success?
    ensures PlainFields(fields) && extra == EncodeFields(fields) + rest
    ensures if Zip64Spec(extra).value then StartsWithZip64(rest) else rest == []
    decreases |extra|
  {
    fields, rest := [], extra;
    if extra != [] {
      var f := FrontField(extra);
      if f.id != ZIP64_ID {
        var more, last := Zip64Unpack(extra[4 + |f.payload|..]);
        fields, rest := [f] + more, last;
        assert fields[1..] == more;
        assert EncodeFields(fields) + rest == f.Encode() + (EncodeFields(more) + rest);
      }
    }
  }

  /** No ZIP64 field means: the bytes are exactly a list of fields with other ids. */
  lemma NoZip64Exact(extra: bytes)
    ensures Zip64Spec(extra) == Success(false) <==> PlainExtra(extra)
  {
    if Zip64Spec(extra) == Success(false) {
      var fields, rest := Zip64Unpack(extra);
      assert EncodeFields(fields) + rest == EncodeFields(fields);
    }
    if fields :| PlainFields(fields) && extra == EncodeFields(fields) {
      Zip64SkipsPlain(fields, []);
      assert EncodeFields(fields) + [] == extra;
    }
  }

  /** A ZIP64 field is reported exactly when one follows a list of other fields, whatever comes after. */
  lemma Zip64Exact(extra: bytes)
    ensures Zip64Spec(extra) == Success(true)
      <==> exists fields, rest :: PlainFields(fields) && StartsWithZip64(rest) && extra == EncodeFields(fields) + rest
  {
    if Zip64Spec(extra) == Success(true) {
      var fields, rest := Zip64Unpack(extra);
    }
    if fields, rest :| PlainFields(fields) && StartsWithZip64(rest) && extra == EncodeFields(fields) + rest {
      var f: ExtraField :| f.Fits() && f.id == 1 && f.Encode() <= rest;
      assert rest == f.Encode() + rest[|f.Encode()|..];
      FieldInFront(f, rest[|f.Encode()|..]);
      Zip64SkipsPlain(fields, rest);
    }
  }

  // --------------------------------------------------------------- the records

  predicate HasZip64Values(r: CentralRecord) {
    || r.compressedSize == 0xFFFFFFFF
    || r.uncompressedSize == 0xFFFFFFFF
    || r.localOffset == 0xFFFFFFFF
    || r.diskStart == 0xFFFF
  }

  /** One record of the walk, with every check in the reader's order. */
  function RecordSpec(decode: Decoder, data: bytes, at: nat): (result: Result<CentralRecord, Failure>)
    ensures result.Success? ==>
      at + CENTRAL_SIZE <= |data| && CentralRecordEnd(data, at) <= |data| && result.value == CentralRecordAt(data, at)
  {
    if at + CENTRAL_SIZE > |data| || !SignatureAt(data, at, CENTRAL_SIGNATURE) then
      Failure(MalformedCentralDirectory)
    else if CentralRecordEnd(data, at) > |data| then
      Failure(TruncatedCentralDirectory)
    else
      var r := CentralRecordAt(data, at);
      if HasZip64Values(r) then Failure(Zip64) else
      var zip64 :- Zip64Spec(r.extra);
      if zip64 then Failure(Zip64)
      else if r.diskStart != 0 then Failure(MultiDisk)
      else
        var _ :- DecodeName(decode, r.name, r.flags);
        Success(r)
  }

  /** The records of the rest of the directory, `count` of them, ending with the data. */
  function Walk(decode: Decoder, data: bytes, at: nat, count: nat): Result<seq<CentralRecord>, Failure>
    decreases count
  {
    if count == 0 then
      if at != |data| then Failure(EntryCountMismatch) else Success([])
    else
      var r :- RecordSpec(decode, data, at);
      var rest :- Walk(decode, data, CentralRecordEnd(data, at), count - 1);
      Success([r] + rest)
  }

  /** The name of a record, by bit 11 of its flags in one of two encodings. */
  function NameOf(decode: Decoder, rawName: bytes, flags: nat): Option<string> {
    decode(rawName, flags / 0x800 % 2 == 1)
  }

  /** A record the walk lets through: of the first disk, with 32-bit sizes and offset, no
      ZIP64 field and a name that can be decoded. */
  ghost predicate Acceptable(decode: Decoder, r: CentralRecord) {
    && r.Fits()
    && r.compressedSize < 0xFFFFFFFF && r.uncompressedSize < 0xFFFFFFFF && r.localOffset < 0xFFFFFFFF
    && r.diskStart == 0
    && PlainExtra(r.extra)
    && NameOf(decode, r.name, r.flags).Some?
  }

  /** The record's name is `<stem>.dist-info/METADATA`. */
  ghost predicate NamesMetadata(decode: Decoder, r: CentralRecord) {
    exists stem: string :: stem != [] && '/' !in stem && NameOf(decode, r.name, r.flags) == Some(stem + ".dist-info/METADATA")
  }

  /** A member has the record's fields. */
  ghost predicate Describes(decode: Decoder, r: CentralRecord, m: Member) {
    && NameOf(decode, r.name, r.flags) == Some(m.name)
    && m.flags == r.flags && m.method_ == r.method_ && m.crc == r.crc
    && m.compressedSize == r.compressedSize && m.uncompressedSize == r.uncompressedSize && m.localOffset == r.localOffset
  }

  lemma MetadataIsNamed(decode: Decoder, r: CentralRecord, m: Member)
    ensures IsMetadata(decode, r) <==> NamesMetadata(decode, r)
    ensures IsMetadata(decode, r) ==> (m == MemberOf(decode, r) <==> Describes(decode, r, m))
  {
    var name := NameOf(decode, r.name, r.flags);
    if name.Some? {
      MetadataNameShape(name.value);
    }
    hide IsMetadataName;
    hide Split;
    if stem: string :| stem != [] && '/' !in stem && name == Some(stem + ".dist-info/METADATA") {
      assert name.value == stem + METADATA_SUFFIX;
    }
  }

  predicate IsMetadata(decode: Decoder, r: CentralRecord) {
    var name := DecodeName(decode, r.name, r.flags);
    name.Success? && IsMetadataName(name.value)
  }

  function MemberOf(decode: Decoder, r: CentralRecord): Member {
    var name := DecodeName(decode, r.name, r.flags);
    Member(if name.Success? then name.value else "", r.flags, r.method_, r.crc,
           r.compressedSize, r.uncompressedSize, r.localOffset)
  }

  function MetadataMembers(decode: Decoder, records: seq<CentralRecord>): seq<Member> {
    if records == [] then []
    else
      (if IsMetadata(decode, records[0]) then [MemberOf(decode, records[0])] else [])
      + MetadataMembers(decode, records[1..])
  }

  /** The single METADATA member among those seen so far and those still to come. */
  function Single(decode: Decoder, seen: seq<Member>, rest: Result<seq<CentralRecord>, Failure>): Result<Member, Failure> {
    var records :- rest;
    var members := seen + MetadataMembers(decode, records);
    if |members| != 1 then Failure(NotExactlyOneMetadata) else Success(members[0])
  }

  function CentralSpec(decode: Decoder, data: bytes, count: nat): Result<Member, Failure> {
    Single(decode, [], Walk(decode, data, 0, count))
  }

  /** The body of the parser's loop: one record, checked. */
  method ReadRecord(decode: Decoder, data: bytes, offset: nat) returns (result: Result<CentralRecord, Failure>)
    requires offset <= |data|
    ensures result == RecordSpec(decode, data, offset)
    ensures forall r :: result == Success(r) <==>
      Acceptable(decode, r) && offset + r.Length() <= |data| && data[offset..offset + r.Length()] == r.Encode()
  {
    forall r
      ensures RecordSpec(decode, data, offset) == Success(r) <==>
        Acceptable(decode, r) && offset + r.Length() <= |data| && data[offset..offset + r.Length()] == r.Encode()
    {
      RecordExact(decode, data, offset, r);
    }
    result := CheckRecord(decode, data, offset);
    hide RecordSpec;
    hide Acceptable;
    hide CentralRecord.Encode;
  }

  /** The checks, in order. */
  method CheckRecord(decode: Decoder, data: bytes, offset: nat) returns (result: Result<CentralRecord, Failure>)
    requires offset <= |data|
    ensures result == RecordSpec(decode, data, offset)
  {
    if offset + CENTRAL_SIZE > |data| || data[offset..offset + 4] != CENTRAL_SIGNATURE {
      return Failure(MalformedCentralDirectory);
    }
    if CentralRecordEnd(data, offset) > |data| {
      return Failure(TruncatedCentralDirectory);
    }
    var r := CentralRecordAt(data, offset);
    if HasZip64Values(r) {
      return Failure(Zip64);
    }
    var zip64 := HasZip64Extra(r.extra);
    if zip64.Failure? {
      return Failure(zip64.error);
    }
    if zip64.value {
      return Failure(Zip64);
    }
    if r.diskStart != 0 {
      return Failure(MultiDisk);
    }
    var name := DecodeName(decode, r.name, r.flags);
    if name.Failure? {
      return Failure(name.error);
    }
    return Success(r);
  }

  method ParseCentralDirectory(decode: Decoder, data: bytes, entryCount: nat) returns (result: Result<Member, Failure>)
    ensures result == CentralSpec(decode, data, entryCount)
    ensures forall m :: result == Success(m) <==> exists records :: Tiles(decode, data, entryCount, records, m)
  {
    forall m
      ensures CentralSpec(decode, data, entryCount) == Success(m) <==> exists records :: Tiles(decode, data, entryCount, records, m)
    {
      CentralExact(decode, data, entryCount, m);
    }
    hide CentralSpec;
    hide Tiles;
    result := WalkDirectory(decode, data, entryCount);
  }

  /** The walk over the records. */
  method WalkDirectory(decode: Decoder, data: bytes, entryCount: nat) returns (result: Result<Member, Failure>)
    ensures result == CentralSpec(decode, data, entryCount)
  {
    hide RecordSpec;
    hide IsMetadata;
    hide MemberOf;
    hide Walk;
    hide Single;
    var offset: nat := 0;
    var metadata: seq<Member> := [];
    CentralIsSingle(decode, data, entryCount);
    for i := 0 to entryCount
      invariant offset <= |data|
      invariant CentralSpec(decode, data, entryCount)
        == Single(decode, metadata, Walk(decode, data, offset, entryCount - i))
    {
      var record := ReadRecord(decode, data, offset);
      if record.Failure? {
        SingleFails(decode, metadata, data, offset, entryCount - i);
        return Failure(record.error);
      }
      SingleStep(decode, metadata, data, offset, entryCount - i);
      assert metadata + [] == metadata;
      if IsMetadata(decode, record.value) {
        metadata := metadata + [MemberOf(decode, record.value)];
      }
      offset := CentralRecordEnd(data, offset);
    }
    SingleEnds(decode, metadata, data, offset);
    if offset != |data| {
      return Failure(EntryCountMismatch);
    }
    if |metadata| != 1 {
      return Failure(NotExactlyOneMetadata);
    }
    return Success(metadata[0]);
  }

  lemma CentralIsSingle(decode: Decoder, data: bytes, count: nat)
    ensures CentralSpec(decode, data, count) == Single(decode, [], Walk(decode, data, 0, count))
  {
  }

  lemma SingleFails(decode: Decoder, seen: seq<Member>, data: bytes, at: nat, count: nat)
    requires count > 0 && RecordSpec(decode, data, at).Failure?
    ensures Single(decode, seen, Walk(decode, data, at, count)) == Failure(RecordSpec(decode, data, at).error)
  {
    hide RecordSpec;
  }

  lemma SingleEnds(decode: Decoder, seen: seq<Member>, data: bytes, at: nat)
    ensures Single(decode, seen, Walk(decode, data, at, 0)) ==
      if at != |data| then Failure(EntryCountMismatch)
      else if |seen| != 1 then Failure(NotExactlyOneMetadata) else Success(seen[0])
  {
  }

  lemma SingleStep(decode: Decoder, seen: seq<Member>, data: bytes, at: nat, count: nat)
    requires count > 0 && RecordSpec(decode, data, at).Success?
    ensures var r := RecordSpec(decode, data, at).value;
      var now := if IsMetadata(decode, r) then [MemberOf(decode, r)] else [];
      Single(decode, seen, Walk(decode, data, at, count))
        == Single(decode, seen + now, Walk(decode, data, CentralRecordEnd(data, at), count - 1))
  {
    hide RecordSpec;
    hide IsMetadata;
    hide MemberOf;
    var r := RecordSpec(decode, data, at).value;
    var rest := Walk(decode, data, CentralRecordEnd(data, at), count - 1);
    if rest.Success? {
      var now := if IsMetadata(decode, r) then [MemberOf(decode, r)] else [];
      assert ([r] + rest.value)[1..] == rest.value;
      assert seen + (now + MetadataMembers(decode, rest.value)) == seen + now + MetadataMembers(decode, rest.value);
    }
  }

  // ------------------------------------------------------------------ exactness

  ghost predicate AllAcceptable(decode: Decoder, records: seq<CentralRecord>) {
    forall i | 0 <= i < |records| :: Acceptable(decode, records[i])
  }

  ghost predicate AllFit(records: seq<CentralRecord>) {
    forall i | 0 <= i < |records| :: records[i].Fits()
  }

  ghost function EncodeRecords(records: seq<CentralRecord>): bytes
    requires AllFit(records)
  {
    if records == [] then [] else records[0].Encode() + EncodeRecords(records[1..])
  }

  lemma RecordSound(decode: Decoder, data: bytes, at: nat, r: CentralRecord, end: nat)
    requires RecordSpec(decode, data, at) == Success(r) && end == CentralRecordEnd(data, at)
    ensures Acceptable(decode, r) && at <= end <= |data| && data[at..end] == r.Encode()
  {
    CentralEncodesDecode(data, at);
    NoZip64Exact(r.extra);
    hide Zip64Spec;
    hide CentralRecord.Encode;
    hide CentralRecordAt;
  }

  lemma RecordComplete(decode: Decoder, data: bytes, at: nat, r: CentralRecord, end: nat)
    requires Acceptable(decode, r) && at <= end <= |data| && data[at..end] == r.Encode()
    ensures RecordSpec(decode, data, at) == Success(r) && CentralRecordEnd(data, at) == end
  {
    assert data == data[..at] + r.Encode() + data[end..];
    CentralDecodesEncode(data[..at], r, data[end..]);
    NoZip64Exact(r.extra);
    hide Zip64Spec;
    hide CentralRecord.Encode;
  }

  /** One record is accepted exactly when an acceptable one is written there. */
  lemma RecordExact(decode: Decoder, data: bytes, at: nat, r: CentralRecord)
    requires at <= |data|
    ensures RecordSpec(decode, data, at) == Success(r)
      <==> Acceptable(decode, r) && at + r.Length() <= |data| && data[at..at + r.Length()] == r.Encode()
  {
    if RecordSpec(decode, data, at) == Success(r) {
      RecordSound(decode, data, at, r, CentralRecordEnd(data, at));
    } else if Acceptable(decode, r) && at + r.Length() <= |data| && data[at..at + r.Length()] == r.Encode() {
      RecordComplete(decode, data, at, r, at + r.Length());
    }
    hide Acceptable;
    hide RecordSpec;
  }

  lemma WalkEnd(decode: Decoder, data: bytes, at: nat, records: seq<CentralRecord>)
    ensures Walk(decode, data, at, 0) == Success(records) <==> at == |data| && records == []
  {
  }

  lemma WalkStep(decode: Decoder, data: bytes, at: nat, count: nat, r: CentralRecord, end: nat, rest: seq<CentralRecord>)
    requires count > 0 && RecordSpec(decode, data, at) == Success(r) && end == CentralRecordEnd(data, at)
    ensures Walk(decode, data, end, count - 1) == Success(rest) ==> Walk(decode, data, at, count) == Success([r] + rest)
  {
  }

  lemma WalkUnstep(decode: Decoder, data: bytes, at: nat, count: nat, records: seq<CentralRecord>)
    returns (r: CentralRecord, end: nat)
    requires count > 0 && Walk(decode, data, at, count) == Success(records)
    ensures RecordSpec(decode, data, at) == Success(r) && end == CentralRecordEnd(data, at)
    ensures records != [] && Walk(decode, data, end, count - 1) == Success(records[1..]) && records[0] == r
  {
    r, end := RecordSpec(decode, data, at).value, CentralRecordEnd(data, at);
  }

  lemma {:induction false} WalkSound(decode: Decoder, data: bytes, at: nat, count: nat, records: seq<CentralRecord>)
    requires at <= |data| && Walk(decode, data, at, count) == Success(records)
    ensures |records| == count && AllAcceptable(decode, records) && AllFit(records)
    ensures data[at..] == EncodeRecords(records)
    decreases count
  {
    hide Walk;
    hide RecordSpec;
    hide Acceptable;
    if count == 0 {
      WalkEnd(decode, data, at, records);
    } else {
      var r, end := WalkUnstep(decode, data, at, count, records);
      RecordSound(decode, data, at, r, end);
      WalkSound(decode, data, end, count - 1, records[1..]);
      AcceptableCons(decode, r, records);
      JoinSlices(data, at, end, |data|);
    }
  }

  lemma AcceptableCons(decode: Decoder, r: CentralRecord, records: seq<CentralRecord>)
    requires records != [] && records[0] == r && Acceptable(decode, r)
    requires AllAcceptable(decode, records[1..]) && AllFit(records[1..])
    ensures AllAcceptable(decode, records) && AllFit(records)
    ensures EncodeRecords(records) == r.Encode() + EncodeRecords(records[1..])
  {
    hide CentralRecord.Encode;
    forall i | 0 <= i < |records|
      ensures Acceptable(decode, records[i])
    {
      assert i > 0 ==> records[i] == records[1..][i - 1];
    }
  }

  lemma {:induction false} WalkComplete(decode: Decoder, data: bytes, at: nat, records: seq<CentralRecord>)
    requires AllAcceptable(decode, records) && AllFit(records)
    requires at <= |data| && data[at..] == EncodeRecords(records)
    ensures Walk(decode, data, at, |records|) == Success(records)
    decreases |records|
  {
    if records == [] {
      WalkEnd(decode, data, at, records);
    } else {
      var r, rest := records[0], records[1..];
      var end := at + r.Length();
      CutFront(data, at, r.Encode(), EncodeRecords(rest));
      RecordComplete(decode, data, at, r, end);
      WalkComplete(decode, data, end, rest);
      WalkStep(decode, data, at, |records|, r, end, rest);
      assert records == [r] + rest;
    }
  }

  lemma CutFront(data: bytes, at: nat, first: bytes, rest: bytes)
    requires at <= |data| && data[at..] == first + rest
    ensures at + |first| <= |data| && data[at..at + |first|] == first && data[at + |first|..] == rest
  {
    assert data[at..at + |first|] == data[at..][..|first|];
    assert data[at + |first|..] == data[at..][|first|..];
  }

  lemma {:induction false} MetadataMembersLocate(decode: Decoder, records: seq<CentralRecord>, m: Member)
    ensures MetadataMembers(decode, records) == []
      <==> forall i | 0 <= i < |records| :: !IsMetadata(decode, records[i])
    ensures MetadataMembers(decode, records) == [m] <==> OnlyMetadata(decode, records, m)
  {
    forall r
      ensures IsMetadata(decode, r) <==> NamesMetadata(decode, r)
      ensures IsMetadata(decode, r) ==> (m == MemberOf(decode, r) <==> Describes(decode, r, m))
    {
      MetadataIsNamed(decode, r, m);
    }
    hide NamesMetadata;
    hide Describes;
    hide IsMetadata;
    hide MemberOf;
    if records != [] {
      var rest := records[1..];
      MetadataMembersLocate(decode, rest, m);
      if OnlyMetadata(decode, rest, m) {
        var i :| IsOnly(decode, rest, m, i);
        if !IsMetadata(decode, records[0]) {
          assert IsOnly(decode, records, m, i + 1);
        }
      }
      if OnlyMetadata(decode, records, m) {
        var i :| IsOnly(decode, records, m, i);
        if i > 0 {
          assert !IsMetadata(decode, records[0]);
          assert IsOnly(decode, rest, m, i - 1);
        } else {
          assert forall k | 0 <= k < |rest| :: rest[k] == records[k + 1];
        }
      }
      if IsMetadata(decode, records[0]) && MetadataMembers(decode, rest) == [] && m == MemberOf(decode, records[0]) {
        assert IsOnly(decode, records, m, 0);
      }
      assert IsMetadata(decode, records[0]) ==> MetadataMembers(decode, records)[0] == MemberOf(decode, records[0]);
    }
  }

  ghost predicate IsOnly(decode: Decoder, records: seq<CentralRecord>, m: Member, i: int) {
    && 0 <= i < |records|
    && Describes(decode, records[i], m)
    && forall j | 0 <= j < |records| :: NamesMetadata(decode, records[j]) <==> j == i
  }

  ghost predicate OnlyMetadata(decode: Decoder, records: seq<CentralRecord>, m: Member) {
    exists i :: IsOnly(decode, records, m, i)
  }

  /** `data` is exactly the records, all acceptable, and `m` is the only METADATA among them. */
  ghost predicate Tiles(decode: Decoder, data: bytes, count: nat, records: seq<CentralRecord>, m: Member) {
    && |records| == count
    && AllAcceptable(decode, records) && AllFit(records)
    && data == EncodeRecords(records)
    && OnlyMetadata(decode, records, m)
  }

  /** The parser succeeds with `m` exactly on the written lists of acceptable records
      that hold one METADATA record, and `m` has that record's fields. */
  lemma CentralExact(decode: Decoder, data: bytes, count: nat, m: Member)
    ensures CentralSpec(decode, data, count) == Success(m)
      <==> exists records :: Tiles(decode, data, count, records, m)
  {
    var walk := Walk(decode, data, 0, count);
    if CentralSpec(decode, data, count) == Success(m) {
      WalkSound(decode, data, 0, count, walk.value);
      assert data[0..] == data;
      assert [] + MetadataMembers(decode, walk.value) == [m];
      MetadataMembersLocate(decode, walk.value, m);
      assert Tiles(decode, data, count, walk.value, m);
    }
    if records :| Tiles(decode, data, count, records, m) {
      TilesAccepted(decode, data, count, records, m);
    }
  }

  lemma TilesAccepted(decode: Decoder, data: bytes, count: nat, records: seq<CentralRecord>, m: Member)
    requires Tiles(decode, data, count, records, m)
    ensures CentralSpec(decode, data, count) == Success(m)
  {
    assert data[0..] == data;
    WalkComplete(decode, data, 0, records);
    MetadataMembersLocate(decode, records, m);
    assert [] + MetadataMembers(decode, records) == [m];
  }
}
