/** Exactly which archives the reader extracts METADATA from, and what it returns. */
module WheelExactness {
  import opened Wrappers
  import opened Bytes
  import opened ZipFormat
  import opened ZipFailures
  import opened EndOfCentralDirectory
  import opened CentralDirectory
  import opened RangeReader
  import opened WheelMetadata

  // ------------------------------------------------------------ the end of the archive

  /** An end record seems to start here and to run to the end of the archive. */
  ghost predicate LooksLikeEnd(archive: bytes, k: int) {
    0 <= k && k + 22 <= |archive| && archive[k..k + 4] == [0x50, 0x4B, 5, 6] && k + 22 + U16(archive, k + 20) == |archive|
  }

  ghost predicate LastEnd(archive: bytes, end: nat) {
    forall k :: end < k ==> !LooksLikeEnd(archive, k)
  }

  /** The last 65557 bytes show a ZIP64 locator right in front of `end`. */
  ghost predicate SeesLocator(archive: bytes, end: nat) {
    20 <= end <= |archive| && |archive| <= end - 20 + 65_557 && archive[end - 20..end - 16] == [0x50, 0x4B, 6, 7]
  }

  /** The archive is `before`, a directory of `n` records and the end record that says so,
      of one disk and with 32-bit values, and no ZIP64 locator is seen. */
  ghost predicate EndsAt(archive: bytes, before: bytes, directory: bytes, n: nat, comment: bytes) {
    && 0 < n < 0xFFFF && |comment| < 0x1_0000 && |before| < 0xFFFFFFFF && 0 < |directory| <= 33_554_432
    && archive == before + directory + EndRecord(0, 0, n, n, |directory|, |before|, comment).Encode()
    && LastEnd(archive, |before| + |directory|)
    && !SeesLocator(archive, |before| + |directory|)
  }

  lemma EndRecordsAgree(archive: bytes, at: nat)
    requires SuffixStart(archive) <= at
    ensures LastEnd(archive, at) <==> forall k :: at - SuffixStart(archive) < k ==> !IsEndRecord(Suffix(archive), k)
  {
    var start := SuffixStart(archive);
    if LastEnd(archive, at) {
      forall k | at - start < k
        ensures !IsEndRecord(Suffix(archive), k)
      {
        IsEndRecordInSuffix(archive, k + start);
        assert !LooksLikeEnd(archive, k + start);
      }
    } else {
      var k :| at < k && LooksLikeEnd(archive, k);
      IsEndRecordInSuffix(archive, k);
    }
    hide Suffix;
    hide SuffixStart;
  }

  lemma LocatorsAgree(archive: bytes, at: nat)
    requires SuffixStart(archive) <= at <= |archive|
    ensures SeesLocator(archive, at) <==> SignatureAt(Suffix(archive), at - SuffixStart(archive) - 20, LOCATOR_SIGNATURE)
  {
    var start := SuffixStart(archive);
    if start + 20 <= at {
      assert archive[at - 20..at - 16] == Suffix(archive)[at - start - 20..at - start - 16];
    }
  }

  lemma TailSound(archive: bytes, d: Directory) returns (comment: bytes)
    requires EocdSpec(Suffix(archive), SuffixStart(archive), |archive|) == Success(d)
    ensures d.offset + d.size <= |archive|
    ensures EndsAt(archive, archive[..d.offset], archive[d.offset..d.offset + d.size], d.entries, comment)
  {
    var start, tail := SuffixStart(archive), Suffix(archive);
    var at := EndRecordOffset(tail);
    EocdSound(tail, start, |archive|, d);
    comment := tail[at + END_SIZE..];
    EndsWithin(archive, d, tail[..at], comment);
  }

  /** What the tail ends in, the archive ends in. */
  lemma EndsWithin(archive: bytes, d: Directory, prefix: bytes, comment: bytes)
    requires EndsWith(Suffix(archive), SuffixStart(archive), |archive|, d, prefix, comment)
    ensures d.offset + d.size <= |archive|
    ensures EndsAt(archive, archive[..d.offset], archive[d.offset..d.offset + d.size], d.entries, comment)
  {
    var start, tail := SuffixStart(archive), Suffix(archive);
    var end := start + |prefix|;
    EndRecordsAgree(archive, end);
    LocatorsAgree(archive, end);
    assert archive[end..] == tail[|prefix|..];
    hide EndRecord.Encode;
    hide LastEnd;
    hide SeesLocator;
    hide SuffixStart;
    hide IsEndRecord;
    hide SignatureAt;
    assert archive == archive[..d.offset] + archive[d.offset..end] + archive[end..];
  }

  lemma TailComplete(archive: bytes, before: bytes, directory: bytes, n: nat, comment: bytes)
    requires EndsAt(archive, before, directory, n, comment)
    ensures EocdSpec(Suffix(archive), SuffixStart(archive), |archive|) == Success(Directory(|before|, |directory|, n))
  {
    var start, tail, end := SuffixStart(archive), Suffix(archive), |before| + |directory|;
    ghost var record := EndRecord(0, 0, n, n, |directory|, |before|, comment);
    assert archive[end..] == record.Encode() && |record.Encode()| <= 65_557;
    EndRecordsAgree(archive, end);
    LocatorsAgree(archive, end);
    hide EndRecord.Encode;
    hide LastEnd;
    hide SeesLocator;
    assert tail == tail[..end - start] + archive[end..];
    assert EndsWith(tail, start, |archive|, Directory(|before|, |directory|, n), tail[..end - start], comment);
    EocdComplete(tail, start, |archive|, Directory(|before|, |directory|, n), tail[..end - start], comment);
  }

  // ------------------------------------------------------------------------ the member

  /** The archive has the member's local header where the directory says, in agreement
      with the directory, and behind it the data. */
  ghost predicate Located(codecs: Codecs, archive: bytes, m: Member, local: LocalRecord, data: bytes) {
    && local.Fits() && local.flags == m.flags && local.method_ == m.method_
    && NameOf(codecs.decode, local.name, local.flags) == Some(m.name)
    && PlainExtra(local.extra) && 0 < |local.name| + |local.extra|
    && var dataAt := m.localOffset + 30 + |local.name| + |local.extra|;
       && dataAt + |data| <= |archive|
       && archive[m.localOffset..dataAt] == local.Encode()
       && archive[dataAt..dataAt + |data|] == data
  }

  /** The data is the content, stored or deflated to the end, with its sizes and checksum. */
  ghost predicate Unpacks(codecs: Codecs, m: Member, data: bytes, content: bytes) {
    && 0 < |data| == m.compressedSize && |content| == m.uncompressedSize
    && codecs.crc(content) % 0x1_0000_0000 == m.crc
    && ((m.method_ == 0 && data == content) || (m.method_ == 8 && codecs.inflate(data) == Inflated(content, true, false)))
  }

  lemma FinishExact(codecs: Codecs, m: Member, data: bytes, content: bytes)
    requires 0 < |data| == m.compressedSize && m.uncompressedSize <= 8_388_608
    ensures Finish(codecs, m, data) == Success(content) <==> Unpacks(codecs, m, data, content)
  {
  }

  lemma ReadStep(codecs: Codecs, archive: bytes, d: Decision)
    requires d.Ask?
    ensures ReadWhole(codecs, archive, d)
      == if 0 < d.length && d.start + d.length <= |archive|
         then ReadWhole(codecs, archive, Decide(codecs, d.next, archive[d.start..d.start + d.length]))
         else Failure(InvalidByteRange)
  {
  }

  lemma StopStep(codecs: Codecs, archive: bytes, result: Result<bytes, Failure>)
    ensures ReadWhole(codecs, archive, Stop(result)) == result
  {
  }

  /** The last stage: the data. */
  lemma DataExact(codecs: Codecs, archive: bytes, m: Member, start: nat, content: bytes)
    requires m.uncompressedSize <= 8_388_608
    ensures ReadWhole(codecs, archive, Ask(start, m.compressedSize, WantData(m))) == Success(content)
      <==> 0 < m.compressedSize && start + m.compressedSize <= |archive|
           && Unpacks(codecs, m, archive[start..start + m.compressedSize], content)
  {
    ReadStep(codecs, archive, Ask(start, m.compressedSize, WantData(m)));
    if 0 < m.compressedSize && start + m.compressedSize <= |archive| {
      var data := archive[start..start + m.compressedSize];
      StopStep(codecs, archive, Finish(codecs, m, data));
      FinishExact(codecs, m, data, content);
      hide Unpacks;
      hide Finish;
    }
    hide ReadWhole;
  }

  /** What the name and the extra field of the local header are checked for. */
  lemma NamesExact(codecs: Codecs, m: Member, name: bytes, extra: bytes)
    ensures var d := DecideNames(codecs, m, |name|, name + extra);
      if NameOf(codecs.decode, name, m.flags) == Some(m.name) && PlainExtra(extra)
      then d == Ask(m.localOffset + 30 + |name| + |extra|, m.compressedSize, WantData(m))
      else d.Stop? && d.result.Failure?
  {
    var variable := name + extra;
    assert variable[..|name|] == name && variable[|name|..] == extra;
    NoZip64Exact(extra);
    hide Zip64Spec;
    hide PlainExtra;
  }

  lemma HeaderFails(m: Member, header: bytes)
    requires |header| == 30
    requires header[..4] != [0x50, 0x4B, 3, 4] || U16(header, 6) != m.flags || U16(header, 8) != m.method_
    ensures DecideHeader(m, header).Stop? && DecideHeader(m, header).result.Failure?
  {
  }

  lemma HeaderPasses(m: Member, header: bytes)
    requires |header| == 30 && header[..4] == [0x50, 0x4B, 3, 4] && U16(header, 6) == m.flags && U16(header, 8) == m.method_
    requires m.flags % 2 == 0 && m.flags / 0x40 % 2 == 0
    ensures DecideHeader(m, header) == Ask(m.localOffset + 30, U16(header, 26) + U16(header, 28), WantNames(m, U16(header, 26)))
  {
  }

  lemma HeaderSlice(archive: bytes, at: nat)
    requires at + 30 <= |archive|
    ensures var header := archive[at..at + 30];
      && header[..4] == archive[at..at + 4]
      && U16(header, 6) == U16(archive, at + 6) && U16(header, 8) == U16(archive, at + 8)
      && U16(header, 26) == U16(archive, at + 26) && U16(header, 28) == U16(archive, at + 28)
  {
  }

  /** What has to lie behind a local header of these lengths. */
  ghost predicate Continues(codecs: Codecs, archive: bytes, m: Member, nameLength: nat, extraLength: nat, content: bytes) {
    var nameAt := m.localOffset + 30;
    var dataAt := nameAt + nameLength + extraLength;
    && 0 < nameLength + extraLength && 0 < m.compressedSize && dataAt + m.compressedSize <= |archive|
    && NameOf(codecs.decode, archive[nameAt..nameAt + nameLength], m.flags) == Some(m.name)
    && PlainExtra(archive[nameAt + nameLength..dataAt])
    && Unpacks(codecs, m, archive[dataAt..dataAt + m.compressedSize], content)
  }

  lemma NamesStage(codecs: Codecs, archive: bytes, m: Member, n: nat, x: nat, content: bytes)
    requires m.uncompressedSize <= 8_388_608
    ensures ReadWhole(codecs, archive, Ask(m.localOffset + 30, n + x, WantNames(m, n))) == Success(content)
      <==> Continues(codecs, archive, m, n, x, content)
  {
    hide ReadWhole;
    hide Decide;
    hide Unpacks;
    hide PlainExtra;
    hide NameOf;
    var start := m.localOffset + 30;
    ReadStep(codecs, archive, Ask(start, n + x, WantNames(m, n)));
    if 0 < n + x && start + n + x <= |archive| {
      var name, extra := archive[start..start + n], archive[start + n..start + n + x];
      JoinSlices(archive, start, start + n, start + n + x);
      NamesRead(codecs, archive, m, name, extra, content);
    }
  }

  lemma NamesRead(codecs: Codecs, archive: bytes, m: Member, name: bytes, extra: bytes, content: bytes)
    requires m.uncompressedSize <= 8_388_608
    ensures var dataAt := m.localOffset + 30 + |name| + |extra|;
      ReadWhole(codecs, archive, Decide(codecs, WantNames(m, |name|), name + extra)) == Success(content) <==>
        NameOf(codecs.decode, name, m.flags) == Some(m.name) && PlainExtra(extra)
        && 0 < m.compressedSize && dataAt + m.compressedSize <= |archive|
        && Unpacks(codecs, m, archive[dataAt..dataAt + m.compressedSize], content)
  {
    hide ReadWhole;
    hide Unpacks;
    hide PlainExtra;
    hide NameOf;
    hide DecideNames;
    var next := Decide(codecs, WantNames(m, |name|), name + extra);
    NamesExact(codecs, m, name, extra);
    hide Decide;
    if next.Stop? {
      StopStep(codecs, archive, next.result);
    } else {
      DataExact(codecs, archive, m, m.localOffset + 30 + |name| + |extra|, content);
    }
  }

  ghost predicate HeaderAt(archive: bytes, m: Member) {
    var at := m.localOffset;
    && at + 30 <= |archive| && archive[at..at + 4] == [0x50, 0x4B, 3, 4]
    && U16(archive, at + 6) == m.flags && U16(archive, at + 8) == m.method_
  }

  lemma HeaderStage(codecs: Codecs, archive: bytes, m: Member, content: bytes)
    requires m.uncompressedSize <= 8_388_608 && m.flags % 2 == 0 && m.flags / 0x40 % 2 == 0
    ensures ReadWhole(codecs, archive, Ask(m.localOffset, 30, WantHeader(m))) == Success(content)
      <==> HeaderAt(archive, m)
           && Continues(codecs, archive, m, U16(archive, m.localOffset + 26), U16(archive, m.localOffset + 28), content)
  {
    var at := m.localOffset;
    var d := Ask(at, 30, WantHeader(m));
    ReadStep(codecs, archive, d);
    if at + 30 <= |archive| {
      var header := archive[at..at + 30];
      HeaderSlice(archive, at);
      assert Decide(codecs, d.next, header) == DecideHeader(m, header);
      hide Decide;
      if HeaderAt(archive, m) {
        HeaderPasses(m, header);
        NamesStage(codecs, archive, m, U16(header, 26), U16(header, 28), content);
      } else {
        HeaderFails(m, header);
        StopStep(codecs, archive, DecideHeader(m, header).result);
      }
      hide DecideHeader;
    }
    hide ReadWhole;
    hide Continues;
    hide U16;
  }

  /** The bytes at the member's place are a written local header with these lengths. */
  lemma LocalIsThere(codecs: Codecs, archive: bytes, m: Member, content: bytes) returns (local: LocalRecord, data: bytes)
    requires HeaderAt(archive, m)
    requires Continues(codecs, archive, m, U16(archive, m.localOffset + 26), U16(archive, m.localOffset + 28), content)
    ensures Located(codecs, archive, m, local, data) && Unpacks(codecs, m, data, content)
  {
    hide PlainExtra;
    hide Unpacks;
    hide NameOf;
    hide U16;
    hide U32;
    hide LocalRecord.Encode;
    var at := m.localOffset;
    local := LocalRecordAt(archive, at);
    LocalEncodesDecode(archive, at);
    var dataAt := LocalRecordEnd(archive, at);
    data := archive[dataAt..dataAt + m.compressedSize];
  }

  lemma LocalWasThere(codecs: Codecs, archive: bytes, m: Member, local: LocalRecord, data: bytes, content: bytes)
    requires Located(codecs, archive, m, local, data) && Unpacks(codecs, m, data, content)
    ensures HeaderAt(archive, m)
      && Continues(codecs, archive, m, U16(archive, m.localOffset + 26), U16(archive, m.localOffset + 28), content)
  {
    hide LocalRecord.Encode;
    hide PlainExtra;
    assert 0 < |data| == m.compressedSize;
    hide Unpacks;
    hide NameOf;
    LocalLayout(local);
    LocalSlices(archive, m.localOffset, local.Encode(), |local.name|);
    hide U16;
  }

  lemma LocalSlices(archive: bytes, at: nat, written: bytes, n: nat)
    requires 30 + n <= |written| && at + |written| <= |archive| && archive[at..at + |written|] == written
    ensures archive[at..at + 4] == written[..4]
    ensures U16(archive, at + 6) == U16(written, 6) && U16(archive, at + 8) == U16(written, 8)
    ensures U16(archive, at + 26) == U16(written, 26) && U16(archive, at + 28) == U16(written, 28)
    ensures archive[at + 30..at + 30 + n] == written[30..30 + n] && archive[at + 30 + n..at + |written|] == written[30 + n..]
  {
    assert forall i :: 0 <= i < |written| ==> archive[at + i] == written[i];
  }

  /** A member's content comes out exactly when it is located and unpacks. */
  lemma MemberExact(codecs: Codecs, archive: bytes, m: Member, content: bytes)
    requires m.uncompressedSize <= 8_388_608 && m.flags % 2 == 0 && m.flags / 0x40 % 2 == 0
    ensures ReadWhole(codecs, archive, Ask(m.localOffset, 30, WantHeader(m))) == Success(content)
      <==> exists local, data :: Located(codecs, archive, m, local, data) && Unpacks(codecs, m, data, content)
  {
    HeaderStage(codecs, archive, m, content);
    hide *;
    if ReadWhole(codecs, archive, Ask(m.localOffset, 30, WantHeader(m))) == Success(content) {
      var local, data := LocalIsThere(codecs, archive, m, content);
    }
    if local, data :| Located(codecs, archive, m, local, data) && Unpacks(codecs, m, data, content) {
      LocalWasThere(codecs, archive, m, local, data, content);
    }
  }

  // -------------------------------------------------------------------- the whole wheel

  /** Member `m` is the one METADATA among acceptable records, of this wheel, not
      encrypted (bits 0 and 6) and of at most 8 MiB. */
  ghost predicate Names(codecs: Codecs, records: seq<CentralRecord>, t: int, m: Member) {
    && AllAcceptable(codecs.decode, records) && IsOnly(codecs.decode, records, m, t)
    && codecs.matchesWheel(m.name)
    && m.flags % 2 == 0 && m.flags / 0x40 % 2 == 0
    && 0 < m.compressedSize <= 8_388_608 && m.uncompressedSize <= 8_388_608
  }

  lemma CentralStage(codecs: Codecs, directory: bytes, n: nat, m: Member)
    ensures (CentralSpec(codecs.decode, directory, n) == Success(m) && CheckMember(codecs, m).None?)
      <==> exists records, t :: |records| == n && AllFit(records) && directory == EncodeRecords(records) && Names(codecs, records, t, m)
  {
    CentralExact(codecs.decode, directory, n, m);
    hide CentralSpec;
    hide AllFit;
    hide AllAcceptable;
    hide IsOnly;
    if CentralSpec(codecs.decode, directory, n) == Success(m) && CheckMember(codecs, m).None? {
      var records :| Tiles(codecs.decode, directory, n, records, m);
      var t :| IsOnly(codecs.decode, records, m, t);
      assert Names(codecs, records, t, m);
    }
    if records, t :| |records| == n && AllFit(records) && directory == EncodeRecords(records) && Names(codecs, records, t, m) {
      assert Tiles(codecs.decode, directory, n, records, m);
    }
  }

  /** Where the parts of a wheel lie. */
  datatype Layout = Layout(
    before: bytes, records: seq<CentralRecord>, comment: bytes, t: int, member: Member, local: LocalRecord, data: bytes)

  /** The archive is a wheel with this METADATA: of at most 32 GiB, ending in the directory
      of its records and an end record, among them the member's, whose local header and
      data lie where the record says. */
  ghost predicate IsWheel(codecs: Codecs, archive: bytes, content: bytes, w: Layout) {
    && |archive| <= 34_359_738_368
    && AllFit(w.records) && EndsAt(archive, w.before, EncodeRecords(w.records), |w.records|, w.comment)
    && Names(codecs, w.records, w.t, w.member)
    && Located(codecs, archive, w.member, w.local, w.data)
    && Unpacks(codecs, w.member, w.data, content)
  }

  lemma DirectoryIsFetched(codecs: Codecs, archive: bytes, d: Directory)
    requires 0 < |archive| <= MAX_ARCHIVE_SIZE
    requires EocdSpec(Suffix(archive), SuffixStart(archive), |archive|) == Success(d) && 0 < d.size && d.offset + d.size <= |archive|
    ensures LocalRead(codecs, archive) == ReadWhole(codecs, archive, DecideCentral(codecs, d.entries, archive[d.offset..d.offset + d.size]))
  {
    hide EocdSpec;
    hide DecideCentral;
    assert SuffixStart(archive) == |archive| - |Suffix(archive)|;
    ReadStep(codecs, archive, Ask(d.offset, d.size, WantCentral(d.entries)));
    hide ReadWhole;
  }

  lemma CentralDecides(codecs: Codecs, archive: bytes, entries: nat, central: bytes)
    ensures var d, m := DecideCentral(codecs, entries, central), CentralSpec(codecs.decode, central, entries);
      if m.Success? && CheckMember(codecs, m.value).None? then d == Ask(m.value.localOffset, 30, WantHeader(m.value))
      else d.Stop? && ReadWhole(codecs, archive, d).Failure?
  {
    hide CentralSpec;
    hide CheckMember;
  }

  lemma DirectoryIsFound(codecs: Codecs, archive: bytes, content: bytes) returns (d: Directory)
    requires LocalRead(codecs, archive) == Success(content)
    ensures 0 < |archive| <= 34_359_738_368
    ensures EocdSpec(Suffix(archive), SuffixStart(archive), |archive|) == Success(d)
  {
    hide EocdSpec;
    assert SuffixStart(archive) == |archive| - |Suffix(archive)|;
    d := EocdSpec(Suffix(archive), SuffixStart(archive), |archive|).value;
  }

  lemma WheelSound(codecs: Codecs, archive: bytes, content: bytes) returns (w: Layout)
    requires LocalRead(codecs, archive) == Success(content)
    ensures IsWheel(codecs, archive, content, w)
  {
    hide EocdSpec;
    hide Suffix;
    hide SuffixStart;
    hide ReadWhole;
    hide LocalRead;
    hide DecideCentral;
    hide CentralSpec;
    hide CheckMember;
    hide Located;
    hide Unpacks;
    hide AllFit;
    hide AllAcceptable;
    hide IsOnly;
    var d := DirectoryIsFound(codecs, archive, content);
    var comment := TailSound(archive, d);
    var central := archive[d.offset..d.offset + d.size];
    DirectoryIsFetched(codecs, archive, d);
    CentralDecides(codecs, archive, d.entries, central);
    var m := CentralSpec(codecs.decode, central, d.entries).value;
    CentralStage(codecs, central, d.entries, m);
    var records, t :| |records| == d.entries && AllFit(records) && central == EncodeRecords(records) && Names(codecs, records, t, m);
    MemberExact(codecs, archive, m, content);
    var local, data :| Located(codecs, archive, m, local, data) && Unpacks(codecs, m, data, content);
    w := Layout(archive[..d.offset], records, comment, t, m, local, data);
  }

  lemma WheelComplete(codecs: Codecs, archive: bytes, content: bytes, w: Layout)
    requires IsWheel(codecs, archive, content, w)
    ensures LocalRead(codecs, archive) == Success(content)
  {
    ghost var central, n, m := EncodeRecords(w.records), |w.records|, w.member;
    TailComplete(archive, w.before, central, n, w.comment);
    MiddleOf(archive, w.before, central, n, w.comment);
    DirectoryIsFetched(codecs, archive, Directory(|w.before|, |central|, n));
    CentralStage(codecs, central, n, m);
    CentralDecides(codecs, archive, n, central);
    MemberExact(codecs, archive, m, content);
  }

  lemma MiddleOf(archive: bytes, before: bytes, directory: bytes, n: nat, comment: bytes)
    requires EndsAt(archive, before, directory, n, comment)
    ensures |archive| > |before| + |directory| && archive[|before|..|before| + |directory|] == directory
  {
    hide EndRecord.Encode;
  }

  /** The reader returns a content exactly for the archives that are wheels with that METADATA. */
  lemma ExtractionExact(codecs: Codecs, archive: bytes, content: bytes)
    ensures LocalRead(codecs, archive) == Success(content) <==> exists w :: IsWheel(codecs, archive, content, w)
  {
    if LocalRead(codecs, archive) == Success(content) {
      var w := WheelSound(codecs, archive, content);
    }
    if w :| IsWheel(codecs, archive, content, w) {
      WheelComplete(codecs, archive, content, w);
    }
    hide *;
  }

  /** And so it does against any honest server. */
  lemma RangedExtractionExact(codecs: Codecs, server: Server, archive: bytes, content: bytes)
    requires Honest(server, archive)
    ensures Extract(codecs, server).result == Success(content) <==> exists w :: IsWheel(codecs, archive, content, w)
  {
    RangedReadRefinesLocal(codecs, server, archive);
    ExtractionExact(codecs, archive, content);
    hide *;
  }
}
