/** A small ZIP writer, and the reader as its inverse. */
module ZipRoundTrip {
  import opened Wrappers
  import opened Bytes
  import opened ZipFormat
  import opened ZipFailures
  import opened EndOfCentralDirectory
  import opened CentralDirectory
  import opened RangeReader
  import opened WheelMetadata
  import opened WheelExactness

  /** A member as it is laid down: its local header, its data, whatever follows up to
      the next header, such as a data descriptor, and its central record. */
  datatype Entry = Entry(local: LocalRecord, data: bytes, trailer: bytes, central: CentralRecord)

  ghost predicate Fitting(entries: seq<Entry>) {
    forall i :: 0 <= i < |entries| ==> entries[i].local.Fits() && entries[i].central.Fits()
  }

  ghost function WriteBody(entries: seq<Entry>): bytes
    requires Fitting(entries)
  {
    if entries == [] then []
    else entries[0].local.Encode() + entries[0].data + (entries[0].trailer + WriteBody(entries[1..]))
  }

  ghost function Centrals(entries: seq<Entry>): (records: seq<CentralRecord>)
    requires Fitting(entries)
    ensures |records| == |entries| && AllFit(records)
    ensures forall i :: 0 <= i < |entries| ==> records[i] == entries[i].central
  {
    seq(|entries|, i requires 0 <= i < |entries| => entries[i].central)
  }

  ghost predicate WithinLimits(entries: seq<Entry>, comment: bytes) {
    && Fitting(entries)
    && 0 < |entries| < 0xFFFF
    && |WriteBody(entries)| < 0xFFFFFFFF
    && 0 < |EncodeRecords(Centrals(entries))| <= MAX_CENTRAL_DIRECTORY_SIZE
    && |comment| < LIMIT16
  }

  ghost function WriteEnd(entries: seq<Entry>, comment: bytes): bytes
    requires WithinLimits(entries, comment)
  {
    var central := EncodeRecords(Centrals(entries));
    EndRecord(0, 0, |entries|, |entries|, |central|, |WriteBody(entries)|, comment).Encode()
  }

  /** Local headers and data, then the central directory, then the end record. */
  ghost function WriteArchive(entries: seq<Entry>, comment: bytes): bytes
    requires WithinLimits(entries, comment)
  {
    WriteBody(entries) + EncodeRecords(Centrals(entries)) + WriteEnd(entries, comment)
  }

  /** A member that is read at all: of this wheel, not encrypted (bits 0 and 6), and of
      at most 8 MiB. */
  ghost predicate Admitted(codecs: Codecs, r: CentralRecord) {
    && NameOf(codecs.decode, r.name, r.flags).Some? && codecs.matchesWheel(NameOf(codecs.decode, r.name, r.flags).value)
    && r.flags % 2 == 0 && r.flags / 0x40 % 2 == 0
    && 0 < r.compressedSize <= 8_388_608 && r.uncompressedSize <= 8_388_608
  }

  /** `data` is how `content` is stored under the record's method, size and checksum. */
  ghost predicate Packs(codecs: Codecs, r: CentralRecord, data: bytes, content: bytes) {
    && |data| == r.compressedSize
    && |content| == r.uncompressedSize
    && codecs.crc(content) % 0x1_0000_0000 == r.crc
    && if r.method_ == 0 then data == content
       else r.method_ == 8 && codecs.inflate(data) == Inflated(content, true, false)
  }

  /** Entry `t` is the one METADATA member, consistently written; the others only
      need acceptable central records. */
  ghost predicate HoldsMetadata(codecs: Codecs, entries: seq<Entry>, t: nat, content: bytes)
    requires Fitting(entries)
  {
    && t < |entries|
    && AllAcceptable(codecs.decode, Centrals(entries))
    && (forall j :: 0 <= j < |entries| ==> (NamesMetadata(codecs.decode, entries[j].central) <==> j == t))
    && var local, r := entries[t].local, entries[t].central;
       && local.flags == r.flags && local.method_ == r.method_ && local.name == r.name != []
       && PlainExtra(local.extra)
       && r.localOffset == |WriteBody(entries[..t])|
       && Admitted(codecs, r)
       && Packs(codecs, r, entries[t].data, content)
  }

  /** The fetched suffix shows ZIP64 locator bytes 20 before the end record. */
  ghost predicate ShowsLocator(archive: bytes, endLength: nat) {
    SignatureAt(Suffix(archive), |Suffix(archive)| - endLength - 20, LOCATOR_SIGNATURE)
  }

  // ------------------------------------------------------------ finding the bytes

  lemma {:induction false} BodySplits(entries: seq<Entry>, t: nat)
    requires Fitting(entries) && t < |entries|
    ensures var e := entries[t];
      WriteBody(entries) == WriteBody(entries[..t]) + (e.local.Encode() + e.data + (e.trailer + WriteBody(entries[t + 1..])))
    decreases t
  {
    if t > 0 {
      var rest := entries[1..];
      BodySplits(rest, t - 1);
      assert rest[..t - 1] == entries[..t][1..] && rest[t..] == entries[t + 1..];
    }
  }

  lemma BehindPrefix(prefix: bytes, end: bytes, k: int)
    requires k >= |prefix|
    ensures IsEndRecord(prefix + end, k) <==> IsEndRecord(end, k - |prefix|)
  {
    ghost var tail, at := prefix + end, k - |prefix|;
    if k + END_SIZE <= |tail| {
      assert tail[k..k + 4] == end[at..at + 4];
      assert U16(tail, k + 20) == U16(end, at + 20);
    }
  }

  lemma EndIsFound(archive: bytes, before: bytes, end: bytes)
    requires archive == before + end && END_SIZE <= |end| <= MAX_EOCD_SEARCH
    requires NoFakeEnd(end)
    ensures SuffixStart(archive) <= |before|
    ensures Suffix(archive) == before[SuffixStart(archive)..] + end
    ensures forall k :: |before| - SuffixStart(archive) < k ==> !IsEndRecord(Suffix(archive), k)
  {
    ghost var prefix := before[SuffixStart(archive)..];
    forall k | |prefix| < k
      ensures !IsEndRecord(prefix + end, k)
    {
      BehindPrefix(prefix, end, k);
    }
  }

  /** What the reader finds in the tail of an archive that ends in a written end record. */
  lemma EndIsRead(before: bytes, end: EndRecord)
    requires end.Fits() && NoFakeEnd(end.Encode())
    ensures var archive := before + end.Encode();
      var at := |Suffix(archive)| - |end.Encode()|;
      at >= 0 && EndRecordOffset(Suffix(archive)) == at && EndRecordAt(Suffix(archive), at) == end
  {
    ghost var archive := before + end.Encode();
    EndIsFound(archive, before, end.Encode());
    ghost var prefix, tail := before[SuffixStart(archive)..], Suffix(archive);
    EndDecodesEncode(prefix, end);
    hide Suffix;
    hide SuffixStart;
    assert IsEndRecord(tail, |prefix|);
  }

  lemma CheckEndPasses(end: EndRecord, absolute: nat, locator: bool, archiveSize: nat)
    requires end.disk == end.centralDisk == 0 && 0 < end.diskEntries == end.totalEntries < 0xFFFF
    requires 0 < end.centralSize <= MAX_CENTRAL_DIRECTORY_SIZE && end.centralOffset < 0xFFFFFFFF
    requires end.centralOffset + end.centralSize == absolute && absolute + END_SIZE + |end.comment| == archiveSize
    ensures CheckEnd(end, absolute, locator, archiveSize)
      == if locator then Failure(Zip64) else Success(Directory(end.centralOffset, end.centralSize, end.totalEntries))
  {
  }

  /** And what it decides, when the record points at the directory right before it. */
  lemma EndDecision(before: bytes, end: EndRecord)
    requires end.Fits() && NoFakeEnd(end.Encode())
    requires end.disk == end.centralDisk == 0 && 0 < end.diskEntries == end.totalEntries < 0xFFFF
    requires 0 < end.centralSize <= MAX_CENTRAL_DIRECTORY_SIZE && end.centralOffset < 0xFFFFFFFF
    requires end.centralOffset + end.centralSize == |before|
    ensures var archive := before + end.Encode();
      DecideTail(Suffix(archive), |archive|) ==
        if ShowsLocator(archive, |end.Encode()|) then Stop(Failure(Zip64))
        else Ask(end.centralOffset, end.centralSize, WantCentral(end.totalEntries))
  {
    ghost var archive := before + end.Encode();
    ghost var at := |Suffix(archive)| - |end.Encode()|;
    EndIsRead(before, end);
    CheckEndPasses(end, |before|, SignatureAt(Suffix(archive), at - 20, LOCATOR_SIGNATURE), |archive|);
    hide EndRecordAt;
    hide EndRecordOffset;
    hide Suffix;
    hide SuffixStart;
    hide NoFakeEnd;
    hide CheckEnd;
    hide SignatureAt;
  }

  lemma TailDecision(entries: seq<Entry>, comment: bytes)
    requires WithinLimits(entries, comment) && NoFakeEnd(WriteEnd(entries, comment))
    ensures var archive, central := WriteArchive(entries, comment), EncodeRecords(Centrals(entries));
      DecideTail(Suffix(archive), |archive|) ==
        if ShowsLocator(archive, |WriteEnd(entries, comment)|) then Stop(Failure(Zip64))
        else Ask(|WriteBody(entries)|, |central|, WantCentral(|entries|))
  {
    hide DecideTail;
    hide ShowsLocator;
    hide NoFakeEnd;
    hide EncodeRecords;
    hide WriteBody;
    ghost var body, central := WriteBody(entries), EncodeRecords(Centrals(entries));
    EndDecision(body + central, EndRecord(0, 0, |entries|, |entries|, |central|, |body|, comment));
  }

  // ------------------------------------------------------------------- the theorem

  lemma Slices(before: bytes, header: bytes, variable: bytes, data: bytes, after: bytes)
    ensures var archive := before + (header + variable + data + after);
      var nameAt, dataAt := |before| + |header|, |before| + |header| + |variable|;
      && archive[|before|..nameAt] == header
      && archive[nameAt..dataAt] == variable
      && archive[dataAt..dataAt + |data|] == data
  {
  }

  lemma Regroup(before: bytes, header: bytes, variable: bytes, data: bytes, after: bytes, central: bytes, end: bytes)
    ensures before + ((header + variable) + data + after) + central + end
      == before + (header + variable + data + (after + central + end))
  {
  }

  lemma LocalInTwo(local: LocalRecord)
    requires local.Fits()
    ensures local.Encode() == local.Header() + (local.name + local.extra)
  {
  }

  lemma ArchiveSplits(entries: seq<Entry>, comment: bytes, t: nat) returns (rest: bytes)
    requires WithinLimits(entries, comment) && t < |entries|
    ensures WriteArchive(entries, comment) == WriteBody(entries[..t])
      + (entries[t].local.Header() + (entries[t].local.name + entries[t].local.extra) + entries[t].data + rest)
  {
    var local, data := entries[t].local, entries[t].data;
    ghost var before, after := WriteBody(entries[..t]), entries[t].trailer + WriteBody(entries[t + 1..]);
    ghost var header, variable := local.Header(), local.name + local.extra;
    ghost var central, end := EncodeRecords(Centrals(entries)), WriteEnd(entries, comment);
    hide LocalRecord.Header;
    hide LocalRecord.Encode;
    hide EncodeRecords;
    hide WriteEnd;
    hide WriteBody;
    BodySplits(entries, t);
    LocalInTwo(local);
    Regroup(before, header, variable, data, after, central, end);
    rest := after + central + end;
  }

  /** Where the writer put entry `t`. */
  lemma MemberSlices(entries: seq<Entry>, comment: bytes, t: nat)
    requires WithinLimits(entries, comment) && t < |entries|
    ensures var archive, at, local, data := WriteArchive(entries, comment), |WriteBody(entries[..t])|, entries[t].local, entries[t].data;
      var dataAt := at + LOCAL_SIZE + |local.name| + |local.extra|;
      && dataAt + |data| <= |archive|
      && archive[at..at + LOCAL_SIZE] == local.Header()
      && archive[at + LOCAL_SIZE..dataAt] == local.name + local.extra
      && archive[dataAt..dataAt + |data|] == data
  {
    hide WriteArchive;
    hide WriteBody;
    hide LocalRecord.Header;
    ghost var rest := ArchiveSplits(entries, comment, t);
    Slices(WriteBody(entries[..t]), entries[t].local.Header(), entries[t].local.name + entries[t].local.extra, entries[t].data, rest);
  }

  lemma LocalBytes(entries: seq<Entry>, comment: bytes, t: nat)
    requires WithinLimits(entries, comment) && t < |entries|
    ensures var archive, at, local, data := WriteArchive(entries, comment), |WriteBody(entries[..t])|, entries[t].local, entries[t].data;
      var dataAt := at + 30 + |local.name| + |local.extra|;
      dataAt + |data| <= |archive| && archive[at..dataAt] == local.Encode() && archive[dataAt..dataAt + |data|] == data
  {
    hide WriteArchive;
    hide WriteBody;
    hide LocalRecord.Header;
    hide LocalRecord.Encode;
    ghost var archive, local, at := WriteArchive(entries, comment), entries[t].local, |WriteBody(entries[..t])|;
    MemberSlices(entries, comment, t);
    JoinSlices(archive, at, at + LOCAL_SIZE, at + LOCAL_SIZE + |local.name| + |local.extra|);
    LocalInTwo(local);
  }

  lemma MemberIsLocated(codecs: Codecs, entries: seq<Entry>, comment: bytes, t: nat, content: bytes)
    requires WithinLimits(entries, comment) && HoldsMetadata(codecs, entries, t, content)
    ensures var m := MemberOf(codecs.decode, entries[t].central);
      && Located(codecs, WriteArchive(entries, comment), m, entries[t].local, entries[t].data)
      && Unpacks(codecs, m, entries[t].data, content)
  {
    hide WriteArchive;
    hide WriteBody;
    hide LocalRecord.Encode;
    hide PlainExtra;
    hide AllAcceptable;
    hide NamesMetadata;
    LocalBytes(entries, comment, t);
  }

  lemma MemberIsNamed(codecs: Codecs, entries: seq<Entry>, t: nat, content: bytes)
    requires Fitting(entries) && HoldsMetadata(codecs, entries, t, content)
    ensures Names(codecs, Centrals(entries), t, MemberOf(codecs.decode, entries[t].central))
  {
    MetadataIsNamed(codecs.decode, entries[t].central, MemberOf(codecs.decode, entries[t].central));
    hide IsMetadata;
    hide NamesMetadata;
    hide Acceptable;
    hide PlainExtra;
  }

  lemma ArchiveEndsAt(entries: seq<Entry>, comment: bytes)
    requires WithinLimits(entries, comment) && NoFakeEnd(WriteEnd(entries, comment))
    requires !ShowsLocator(WriteArchive(entries, comment), |WriteEnd(entries, comment)|)
    ensures EndsAt(WriteArchive(entries, comment), WriteBody(entries), EncodeRecords(Centrals(entries)), |entries|, comment)
  {
    hide WriteBody;
    hide EncodeRecords;
    hide EndRecord.Encode;
    ghost var before := WriteBody(entries) + EncodeRecords(Centrals(entries));
    ghost var archive, end := WriteArchive(entries, comment), WriteEnd(entries, comment);
    assert archive == before + end;
    EndIsFound(archive, before, end);
    hide NoFakeEnd;
    hide LastEnd;
    hide SeesLocator;
    hide Suffix;
    hide SuffixStart;
    hide SignatureAt;
    EndRecordsAgree(archive, |before|);
    LocatorsAgree(archive, |before|);
  }

  /** Reading what the writer wrote returns exactly the METADATA content, unless
      locator bytes happen to stand 20 before the end record; then it is refused. */
  lemma ReadInvertsWrite(codecs: Codecs, entries: seq<Entry>, comment: bytes, t: nat, content: bytes)
    requires WithinLimits(entries, comment) && HoldsMetadata(codecs, entries, t, content)
    requires NoFakeEnd(WriteEnd(entries, comment))
    ensures var archive := WriteArchive(entries, comment);
      LocalRead(codecs, archive) ==
        if ShowsLocator(archive, |WriteEnd(entries, comment)|) then Failure(Zip64) else Success(content)
  {
    ghost var archive, end := WriteArchive(entries, comment), WriteEnd(entries, comment);
    if ShowsLocator(archive, |end|) {
      TailDecision(entries, comment);
      hide DecideTail;
      hide ShowsLocator;
    } else {
      hide HoldsMetadata;
      hide WriteArchive;
      ArchiveEndsAt(entries, comment);
      MemberIsLocated(codecs, entries, comment, t, content);
      MemberIsNamed(codecs, entries, t, content);
      ghost var m := MemberOf(codecs.decode, entries[t].central);
      hide *;
      WheelIsRead(codecs, archive, content, WriteBody(entries), Centrals(entries), comment, t, m, entries[t].local, entries[t].data);
    }
  }

  lemma WheelIsRead(codecs: Codecs, archive: bytes, content: bytes, before: bytes, records: seq<CentralRecord>, comment: bytes,
                    t: int, m: Member, local: LocalRecord, data: bytes)
    requires |archive| <= 34_359_738_368 && AllFit(records) && EndsAt(archive, before, EncodeRecords(records), |records|, comment)
    requires Names(codecs, records, t, m) && Located(codecs, archive, m, local, data) && Unpacks(codecs, m, data, content)
    ensures LocalRead(codecs, archive) == Success(content)
  {
    hide EndsAt;
    hide Names;
    hide Located;
    hide Unpacks;
    WheelComplete(codecs, archive, content, Layout(before, records, comment, t, m, local, data));
  }

  /** Over the wire: any honest server holding a written archive makes the reader return its METADATA. */
  lemma ServedArchiveIsRead(codecs: Codecs, server: Server, entries: seq<Entry>, comment: bytes, t: nat, content: bytes)
    requires WithinLimits(entries, comment) && HoldsMetadata(codecs, entries, t, content)
    requires NoFakeEnd(WriteEnd(entries, comment))
    requires !ShowsLocator(WriteArchive(entries, comment), |WriteEnd(entries, comment)|)
    requires Honest(server, WriteArchive(entries, comment))
    ensures Extract(codecs, server).result == Success(content)
  {
    RangedReadRefinesLocal(codecs, server, WriteArchive(entries, comment));
    ReadInvertsWrite(codecs, entries, comment, t, content);
  }

  // -------------------------------------------------------------- concrete archives

  /** The wheel that holds nothing but its METADATA, stored as it is. */
  ghost function StoredMember(codecs: Codecs, rawName: bytes, content: bytes, comment: bytes := []): Entry {
    var crc := codecs.crc(content) % LIMIT32;
    Entry(
      LocalRecord(20, 0, 0, 0, 0, crc, |content|, |content|, rawName, []), content, [],
      CentralRecord(20, 20, 0, 0, 0, 0, crc, |content|, |content|, 0, 0, 0, 0, rawName, [], comment))
  }

  /** A name that the reader accepts for this wheel. */
  ghost predicate Qualifies(codecs: Codecs, rawName: bytes, stem: string) {
    && 0 < |rawName| < LIMIT16 && codecs.decode(rawName, false) == Some(stem + METADATA_SUFFIX)
    && stem != [] && '/' !in stem && codecs.matchesWheel(stem + METADATA_SUFFIX)
  }

  /** Every content of allowed size, under every name that qualifies and with any
      comments, is within the reach of the two theorems above. */
  lemma StoredMemberQualifies(codecs: Codecs, rawName: bytes, stem: string, content: bytes, memberComment: bytes, comment: bytes)
    requires Qualifies(codecs, rawName, stem) && 0 < |content| <= MAX_METADATA_SIZE
    requires |memberComment| < LIMIT16 && |comment| < LIMIT16
    ensures var entries := [StoredMember(codecs, rawName, content, memberComment)];
      WithinLimits(entries, comment) && HoldsMetadata(codecs, entries, 0, content)
      && EncodeRecords(Centrals(entries)) == entries[0].central.Encode()
  {
    ghost var entry := StoredMember(codecs, rawName, content, memberComment);
    ghost var entries := [entry];
    assert entries[1..] == [] && entries[..0] == [];
    assert Fitting(entries);
    NoExtraIsPlain();
    StoredIsNamed(codecs, rawName, stem, content, memberComment);
    assert Centrals(entries) == [entry.central] && Centrals(entries)[1..] == [];
    assert WriteBody([]) == [] && EncodeRecords([]) == [];
    assert EncodeRecords(Centrals(entries)) == entry.central.Encode() + EncodeRecords([]);
    assert WriteBody(entries) == entry.local.Encode() + entry.data + (entry.trailer + WriteBody([]));
    hide NamesMetadata;
    hide PlainExtra;
    hide CentralRecord.Encode;
    hide LocalRecord.Encode;
  }

  lemma NoExtraIsPlain()
    ensures PlainExtra([])
  {
    assert PlainFields([]) && EncodeFields([]) == [];
  }

  lemma StoredIsNamed(codecs: Codecs, rawName: bytes, stem: string, content: bytes, memberComment: bytes)
    requires Qualifies(codecs, rawName, stem)
    ensures NamesMetadata(codecs.decode, StoredMember(codecs, rawName, content, memberComment).central)
  {
    assert NameOf(codecs.decode, rawName, 0) == Some(stem + ".dist-info/METADATA");
  }

  /** An empty file, as a wheel's `__init__.py` may be. Its comment keeps locator bytes away. */
  ghost function EmptyFile(codecs: Codecs, rawName: bytes, offset: nat): Entry {
    Entry(
      LocalRecord(20, 0, 0, 0, 0, 0, 0, 0, rawName, []), [], [],
      CentralRecord(20, 20, 0, 0, 0, 0, 0, 0, 0, 0, 0, 0, offset, rawName, [], seq(20, i => 0)))
  }

  lemma EmptyFileIsNoMetadata(codecs: Codecs, rawName: bytes, offset: nat)
    requires codecs.decode(rawName, false) == Some("p/__init__.py")
    ensures !NamesMetadata(codecs.decode, EmptyFile(codecs, rawName, offset).central)
  {
    var name := "p/__init__.py";
    forall stem: string
      ensures name != stem + ".dist-info/METADATA"
    {
      assert (stem + ".dist-info/METADATA")[|stem| + 18] == 'A';
    }
  }

  lemma NoCommentFakesNothing(end: EndRecord)
    requires end.Fits() && end.comment == []
    ensures NoFakeEnd(end.Encode())
  {
  }

  lemma ZerosShowNoLocator(before: bytes, central: bytes, end: bytes)
    requires |central| >= 20 && central[|central| - 20..] == seq(20, i => 0) && |end| == 22
    ensures !ShowsLocator(before + central + end, |end|)
  {
    ghost var archive, at := before + central + end, |before| + |central| - 20;
    assert archive[at] == central[|central| - 20..][0] == 0;
    assert Suffix(archive)[|Suffix(archive)| - 42] == archive[at];
  }

  /** The two entries of a wheel with METADATA and an empty file. */
  ghost function WithEmptyFile(codecs: Codecs, rawName: bytes, content: bytes, rawInit: bytes): seq<Entry> {
    [StoredMember(codecs, rawName, content, []), EmptyFile(codecs, rawInit, 30 + |rawName| + |content|)]
  }

  lemma WithEmptyFileQualifies(codecs: Codecs, rawName: bytes, stem: string, content: bytes, rawInit: bytes)
    requires Qualifies(codecs, rawName, stem) && 0 < |content| <= 8_388_608
    requires |rawInit| < 0x1_0000 && codecs.decode(rawInit, false) == Some("p/__init__.py")
    ensures var entries := WithEmptyFile(codecs, rawName, content, rawInit);
      && WithinLimits(entries, []) && HoldsMetadata(codecs, entries, 0, content)
      && EncodeRecords(Centrals(entries)) == entries[0].central.Encode() + entries[1].central.Encode()
  {
    ghost var entries := WithEmptyFile(codecs, rawName, content, rawInit);
    assert Fitting(entries);
    assert entries[1..] == [entries[1]] && entries[1..][1..] == [] && entries[..0] == [];
    ghost var centrals := Centrals(entries);
    assert centrals == [entries[0].central, entries[1].central] && centrals[1..] == [entries[1].central] && centrals[1..][1..] == [];
    assert WriteBody([]) == [] && EncodeRecords([]) == [];
    assert WriteBody(entries[1..]) == entries[1].local.Encode() + entries[1].data + (entries[1].trailer + WriteBody([]));
    assert EncodeRecords(centrals[1..]) == entries[1].central.Encode() + EncodeRecords([]);
    NoExtraIsPlain();
    StoredIsNamed(codecs, rawName, stem, content, []);
    EmptyFileIsNoMetadata(codecs, rawInit, 30 + |rawName| + |content|);
    hide NamesMetadata;
    hide PlainExtra;
    hide CentralRecord.Encode;
    hide LocalRecord.Encode;
  }

  /** A wheel that also has an empty file is read like any other. */
  lemma EmptyFileIsAccepted(codecs: Codecs, rawName: bytes, stem: string, content: bytes, rawInit: bytes)
    requires Qualifies(codecs, rawName, stem) && 0 < |content| <= 8_388_608
    requires |rawInit| < 0x1_0000 && codecs.decode(rawInit, false) == Some("p/__init__.py")
    ensures var entries := WithEmptyFile(codecs, rawName, content, rawInit);
      WithinLimits(entries, []) && LocalRead(codecs, WriteArchive(entries, [])) == Success(content)
  {
    ghost var entries := WithEmptyFile(codecs, rawName, content, rawInit);
    WithEmptyFileQualifies(codecs, rawName, stem, content, rawInit);
    ghost var body, central := WriteBody(entries), EncodeRecords(Centrals(entries));
    EmptyFileEndsInZeros(codecs, rawInit, 30 + |rawName| + |content|, entries[0].central.Encode());
    NoCommentFakesNothing(EndRecord(0, 0, 2, 2, |central|, |body|, []));
    ZerosShowNoLocator(body, central, WriteEnd(entries, []));
    hide HoldsMetadata;
    hide ShowsLocator;
    hide NoFakeEnd;
    ReadInvertsWrite(codecs, entries, [], 0, content);
  }

  lemma EmptyFileEndsInZeros(codecs: Codecs, rawInit: bytes, offset: nat, front: bytes)
    requires EmptyFile(codecs, rawInit, offset).central.Fits()
    ensures var central := front + EmptyFile(codecs, rawInit, offset).central.Encode();
      |central| >= 20 && central[|central| - 20..] == seq(20, i => 0)
  {
  }

  /** The bytes of a ZIP64 locator, at the end of a member's comment. */
  ghost function LocatorComment(): (comment: bytes)
    ensures |comment| == 20 && comment[..4] == LOCATOR_SIGNATURE
  {
    LOCATOR_SIGNATURE + seq(16, i => 0)
  }

  ghost function LongComment(): (comment: bytes)
    ensures |comment| == 65_535 && forall i :: 0 <= i < 65_535 ==> comment[i] == 0
  {
    seq(65_535, i => 0)
  }

  lemma LocatorBeforeEnd(before: bytes, central: bytes, end: bytes)
    requires |central| >= 20 && central[|central| - 20..] == LocatorComment() && |end| == MAX_EOCD_SEARCH
    ensures var archive := before + central + end;
      SuffixStart(archive) == |before| + |central| && Suffix(archive) == end
      && SignatureAt(archive, SuffixStart(archive) - 20, LOCATOR_SIGNATURE)
  {
    ghost var archive, at := before + central + end, |before| + |central| - 20;
    assert archive[at..at + 4] == central[|central| - 20..][..4];
  }

  lemma EndAlone(r: EndRecord)
    requires r.Fits() && NoFakeEnd(r.Encode())
    ensures EndRecordOffset(r.Encode()) == 0
  {
    EndDecodesEncode([], r);
    assert [] + r.Encode() == r.Encode();
    assert IsEndRecord(r.Encode(), 0);
  }

  lemma HiddenByLongComment(before: bytes, central: bytes, r: EndRecord)
    requires |central| >= 20 && central[|central| - 20..] == LocatorComment()
    requires r.Fits() && NoFakeEnd(r.Encode()) && |r.Encode()| == MAX_EOCD_SEARCH
    ensures var archive := before + central + r.Encode();
      HiddenLocator(archive) && !ShowsLocator(archive, |r.Encode()|)
  {
    LocatorBeforeEnd(before, central, r.Encode());
    EndAlone(r);
    hide EndRecord.Encode;
    hide Suffix;
    hide SuffixStart;
    hide EndRecordOffset;
  }

  /** A whole wheel that the reader accepts, although a reader of the whole archive
      refuses it: its last central record ends in locator bytes, right in front of a
      tail filled by the longest comment. */
  lemma HiddenLocatorIsAccepted(codecs: Codecs, rawName: bytes, stem: string, content: bytes) returns (archive: bytes)
    requires Qualifies(codecs, rawName, stem) && 0 < |content| <= MAX_METADATA_SIZE
    ensures Extract(codecs, ServerOf(archive)).result == Success(content)
    ensures HiddenLocator(archive) && StrictRead(codecs, archive).Failure?
  {
    ghost var entries := [StoredMember(codecs, rawName, content, LocatorComment())];
    StoredMemberQualifies(codecs, rawName, stem, content, LocatorComment(), LongComment());
    ghost var body, central := WriteBody(entries), EncodeRecords(Centrals(entries));
    ghost var r := EndRecord(0, 0, 1, 1, |central|, |body|, LongComment());
    ZerosFakeNothing(r);
    archive := WriteArchive(entries, LongComment());
    HiddenByLongComment(body, central, r);
    ServerOfIsHonest(archive);
    ServedArchiveIsRead(codecs, ServerOf(archive), entries, LongComment(), 0, content);
    if strict: bytes :| StrictRead(codecs, archive) == Success(strict) {
      RangedReadVersusWholeArchive(codecs, ServerOf(archive), archive, strict);
    }
  }
}
