/** Finding and checking the end of central directory record. */
module EndOfCentralDirectory {
  import opened Wrappers
  import opened Bytes
  import opened ZipFormat
  import opened ZipFailures

  const MAX_CENTRAL_DIRECTORY_SIZE := 32 * 1024 * 1024
  const MAX_ENTRIES := 100_000
  const MAX_EOCD_SEARCH := END_SIZE + 65_535

  /** Where the central directory lies and how many records it holds. */
  datatype Directory = Directory(offset: nat, size: nat, entries: nat)

  /** A signature at `at` whose comment length makes the record end with the data. */
  predicate IsEndRecord(tail: bytes, at: int) {
    && SignatureAt(tail, at, END_SIGNATURE)
    && at + END_SIZE <= |tail|
    && at + END_SIZE + U16(tail, at + 20) == |tail|
  }

  /** The last self-consistent end record at or below `candidate`, or -1. */
  function LastEndRecord(tail: bytes, candidate: int): (at: int)
    ensures -1 <= at && at <= if candidate < -1 then -1 else candidate
    ensures at >= 0 ==> IsEndRecord(tail, at)
    ensures forall k :: at < k <= candidate ==> !IsEndRecord(tail, k)
    decreases candidate + 1
  {
    if candidate < 0 then -1
    else if IsEndRecord(tail, candidate) then candidate
    else LastEndRecord(tail, candidate - 1)
  }

  function EndRecordOffset(tail: bytes): (at: int)
    ensures -1 <= at
    ensures at >= 0 ==> IsEndRecord(tail, at)
    ensures forall k :: at < k ==> !IsEndRecord(tail, k)
  {
    LastEndRecord(tail, |tail| - END_SIZE)
  }

  /** The checks on the end record found at `absolute`, in the reader's order. */
  function CheckEnd(r: EndRecord, absolute: nat, locator: bool, archiveSize: nat): Result<Directory, Failure> {
    if absolute + END_SIZE + |r.comment| != archiveSize then
      Failure(InvalidEndRecord)
    else if r.disk != 0 || r.centralDisk != 0 || r.diskEntries != r.totalEntries then
      Failure(MultiDisk)
    else if r.totalEntries == 0xFFFF || r.centralSize == 0xFFFFFFFF || r.centralOffset == 0xFFFFFFFF || locator then
      Failure(Zip64)
    else if r.totalEntries == 0 || r.totalEntries > MAX_ENTRIES then
      Failure(InvalidEntryCount)
    else if r.centralSize == 0 || r.centralSize > MAX_CENTRAL_DIRECTORY_SIZE then
      Failure(CentralDirectoryTooLarge)
    else if r.centralOffset + r.centralSize != absolute then
      Failure(InvalidCentralBounds)
    else
      Success(Directory(r.centralOffset, r.centralSize, r.totalEntries))
  }

  /** The directory that the last end record of the bytes points at. */
  function EocdSpec(tail: bytes, tailStart: nat, archiveSize: nat): Result<Directory, Failure> {
    var at := EndRecordOffset(tail);
    if at < 0 then
      Failure(EndRecordNotFound)
    else
      CheckEnd(EndRecordAt(tail, at), tailStart + at, SignatureAt(tail, at - 20, LOCATOR_SIGNATURE), archiveSize)
  }

  /** The reader's backward search. */
  method FindEndRecord(tail: bytes) returns (offset: int)
    ensures offset == EndRecordOffset(tail)
  {
    offset := -1;
    var candidate := |tail| - END_SIZE;
    while candidate > -1
      invariant -1 <= candidate || |tail| < END_SIZE
      invariant offset == -1 && EndRecordOffset(tail) == LastEndRecord(tail, candidate)
    {
      if tail[candidate..candidate + 4] == END_SIGNATURE {
        var commentLength := U16(tail, candidate + 20);
        if candidate + END_SIZE + commentLength == |tail| {
          offset := candidate;
          break;
        }
      }
      candidate := candidate - 1;
    }
  }

  /** The search and the checks on what it found. */
  method ParseEocd(tail: bytes, tailStart: nat, archiveSize: nat) returns (result: Result<Directory, Failure>)
    ensures result == EocdSpec(tail, tailStart, archiveSize)
  {
    var offset := FindEndRecord(tail);
    hide EndRecordOffset;
    hide LastEndRecord;
    if offset < 0 {
      return Failure(EndRecordNotFound);
    }
    var disk, centralDisk := U16(tail, offset + 4), U16(tail, offset + 6);
    var diskEntries, totalEntries := U16(tail, offset + 8), U16(tail, offset + 10);
    var centralSize, centralOffset := U32(tail, offset + 12), U32(tail, offset + 16);
    var commentLength := U16(tail, offset + 20);
    var eocdAbsolute := tailStart + offset;
    hide U16;
    hide U32;
    if eocdAbsolute + END_SIZE + commentLength != archiveSize {
      return Failure(InvalidEndRecord);
    }
    if disk != 0 || centralDisk != 0 || diskEntries != totalEntries {
      return Failure(MultiDisk);
    }
    if totalEntries == 0xFFFF || centralSize == 0xFFFFFFFF || centralOffset == 0xFFFFFFFF
       || (offset >= 20 && tail[offset - 20..offset - 16] == LOCATOR_SIGNATURE) {
      return Failure(Zip64);
    }
    if totalEntries == 0 || totalEntries > MAX_ENTRIES {
      return Failure(InvalidEntryCount);
    }
    if centralSize <= 0 || centralSize > MAX_CENTRAL_DIRECTORY_SIZE {
      return Failure(CentralDirectoryTooLarge);
    }
    if centralOffset + centralSize != eocdAbsolute {
      return Failure(InvalidCentralBounds);
    }
    return Success(Directory(centralOffset, centralSize, totalEntries));
  }

  /** The entry count is refused for being zero, never for exceeding `MAX_ENTRIES`: it
      has 16 bits, and the largest value is taken for ZIP64 before. */
  lemma OnlyZeroEntriesAreInvalid(tail: bytes, at: nat, absolute: nat, locator: bool, archiveSize: nat)
    requires at + END_SIZE <= |tail|
    requires CheckEnd(EndRecordAt(tail, at), absolute, locator, archiveSize) == Failure(InvalidEntryCount)
    ensures U16(tail, at + 10) == 0
  {
    var total := U16(tail, at + 10);
    assert EndRecordAt(tail, at).totalEntries == total < LIMIT16;
  }

  // ------------------------------------------------------------------ exactness

  /** The bytes are `prefix` and one written single-disk, 32-bit end record that
      points at the directory `d` right before it, with no later end record. */
  ghost predicate EndsWith(tail: bytes, tailStart: nat, archiveSize: nat, d: Directory, prefix: bytes, comment: bytes) {
    && |comment| < LIMIT16
    && 0 < d.entries < 0xFFFF
    && 0 < d.size <= 33_554_432
    && d.offset < 0xFFFFFFFF
    && tail == prefix + EndRecord(0, 0, d.entries, d.entries, d.size, d.offset, comment).Encode()
    && archiveSize == tailStart + |tail|
    && d.offset + d.size == tailStart + |prefix|
    && !SignatureAt(tail, |prefix| - 20, LOCATOR_SIGNATURE)
    && forall k :: |prefix| < k ==> !IsEndRecord(tail, k)
  }

  lemma EocdComplete(tail: bytes, tailStart: nat, archiveSize: nat, d: Directory, prefix: bytes, comment: bytes)
    requires EndsWith(tail, tailStart, archiveSize, d, prefix, comment)
    ensures EndRecordOffset(tail) == |prefix|
    ensures EocdSpec(tail, tailStart, archiveSize) == Success(d)
  {
    var r := EndRecord(0, 0, d.entries, d.entries, d.size, d.offset, comment);
    EndDecodesEncode(prefix, r);
    assert IsEndRecord(tail, |prefix|);
  }

  lemma EocdSound(tail: bytes, tailStart: nat, archiveSize: nat, d: Directory)
    requires EocdSpec(tail, tailStart, archiveSize) == Success(d)
    ensures var at := EndRecordOffset(tail);
      at >= 0 && EndsWith(tail, tailStart, archiveSize, d, tail[..at], tail[at + END_SIZE..])
  {
    var at := EndRecordOffset(tail);
    EndEncodesDecode(tail, at);
    var r := EndRecordAt(tail, at);
    assert r.comment == tail[at + END_SIZE..];
    hide EndRecordAt;
    hide EndRecordOffset;
    hide EndRecord.Encode;
    assert tail == tail[..at] + tail[at..];
  }

  /** The search accepts exactly the data that ends in a written end record. */
  lemma EocdExact(tail: bytes, tailStart: nat, archiveSize: nat, d: Directory)
    ensures EocdSpec(tail, tailStart, archiveSize) == Success(d)
      <==> exists prefix, comment :: EndsWith(tail, tailStart, archiveSize, d, prefix, comment)
  {
    if EocdSpec(tail, tailStart, archiveSize) == Success(d) {
      EocdSound(tail, tailStart, archiveSize, d);
    } else if exists prefix, comment :: EndsWith(tail, tailStart, archiveSize, d, prefix, comment) {
      var prefix, comment :| EndsWith(tail, tailStart, archiveSize, d, prefix, comment);
      EocdComplete(tail, tailStart, archiveSize, d, prefix, comment);
    }
  }

  // --------------------------------------------------- the suffix and the whole

  function SuffixStart(archive: bytes): nat {
    if |archive| <= MAX_EOCD_SEARCH then 0 else |archive| - MAX_EOCD_SEARCH
  }

  function Suffix(archive: bytes): (tail: bytes)
    ensures |tail| == |archive| - SuffixStart(archive)
  {
    archive[SuffixStart(archive)..]
  }

  lemma IsEndRecordInSuffix(archive: bytes, at: int)
    ensures IsEndRecord(archive, at) <==> IsEndRecord(Suffix(archive), at - SuffixStart(archive))
  {
    var start, tail := SuffixStart(archive), Suffix(archive);
    if start <= at && at + END_SIZE <= |archive| {
      assert archive[at..at + 4] == tail[at - start..at - start + 4];
      assert U16(archive, at + 20) == U16(tail, at - start + 20);
    }
  }

  /** The end record found in the last 65557 bytes is the one a search of the whole archive finds. */
  lemma SuffixSearchIsComplete(archive: bytes)
    ensures var found := EndRecordOffset(Suffix(archive));
      EndRecordOffset(archive) == if found < 0 then -1 else SuffixStart(archive) + found
  {
    var start := SuffixStart(archive);
    var found, whole := EndRecordOffset(Suffix(archive)), EndRecordOffset(archive);
    if whole >= 0 {
      IsEndRecordInSuffix(archive, whole);
      assert IsEndRecord(Suffix(archive), whole - start);
    }
    if found >= 0 {
      IsEndRecordInSuffix(archive, start + found);
      assert IsEndRecord(archive, start + found);
    }
  }

  /** A ZIP64 locator that lies in front of the fetched suffix. */
  predicate HiddenLocator(archive: bytes) {
    var found := EndRecordOffset(Suffix(archive));
    && 0 <= found < 20
    && SuffixStart(archive) > 0
    && SignatureAt(archive, SuffixStart(archive) + found - 20, LOCATOR_SIGNATURE)
  }

  lemma LocatorInSuffix(archive: bytes)
    requires EndRecordOffset(Suffix(archive)) >= 0
    ensures var at, start := EndRecordOffset(Suffix(archive)), SuffixStart(archive);
      SignatureAt(archive, start + at - 20, LOCATOR_SIGNATURE)
      <==> SignatureAt(Suffix(archive), at - 20, LOCATOR_SIGNATURE) || HiddenLocator(archive)
  {
    var at, start := EndRecordOffset(Suffix(archive)), SuffixStart(archive);
    if at >= 20 {
      assert archive[start + at - 20..start + at - 16] == Suffix(archive)[at - 20..at - 16];
    }
  }

  lemma EndRecordInSuffix(archive: bytes, at: nat)
    requires SuffixStart(archive) <= at && at + END_SIZE <= |archive|
    ensures EndRecordAt(archive, at) == EndRecordAt(Suffix(archive), at - SuffixStart(archive))
  {
    var start, tail := SuffixStart(archive), Suffix(archive);
    assert forall k | 0 <= k < |tail| :: archive[start + k] == tail[k];
    assert archive[at + END_SIZE..] == tail[at - start + END_SIZE..];
  }

  lemma EocdOf(tail: bytes, tailStart: nat, archiveSize: nat, at: nat, r: EndRecord)
    requires EndRecordOffset(tail) == at && EndRecordAt(tail, at) == r
    ensures EocdSpec(tail, tailStart, archiveSize)
      == CheckEnd(r, tailStart + at, SignatureAt(tail, at - 20, LOCATOR_SIGNATURE), archiveSize)
  {
    hide EndRecordOffset;
    hide CheckEnd;
    hide SignatureAt;
  }

  lemma LocatorDecides(r: EndRecord, absolute: nat, seen: bool, hidden: bool, archiveSize: nat, d: Directory)
    ensures CheckEnd(r, absolute, seen || hidden, archiveSize) == Success(d)
      <==> CheckEnd(r, absolute, seen, archiveSize) == Success(d) && !hidden
  {
  }

  lemma NoEndRecord(archive: bytes)
    requires EndRecordOffset(Suffix(archive)) < 0
    ensures EocdSpec(archive, 0, |archive|) == EocdSpec(Suffix(archive), SuffixStart(archive), |archive|) == Failure(EndRecordNotFound)
  {
    SuffixSearchIsComplete(archive);
    hide EndRecordOffset;
  }

  lemma BothParses(archive: bytes, at: nat, r: EndRecord)
    requires EndRecordOffset(Suffix(archive)) == at && EndRecordAt(Suffix(archive), at) == r
    ensures var start, tail := SuffixStart(archive), Suffix(archive);
      && EocdSpec(archive, 0, |archive|) == CheckEnd(r, start + at, SignatureAt(archive, start + at - 20, LOCATOR_SIGNATURE), |archive|)
      && EocdSpec(tail, start, |archive|) == CheckEnd(r, start + at, SignatureAt(tail, at - 20, LOCATOR_SIGNATURE), |archive|)
  {
    var start := SuffixStart(archive);
    SuffixSearchIsComplete(archive);
    EndRecordInSuffix(archive, start + at);
    hide *;
    EocdOf(archive, 0, |archive|, start + at, r);
    EocdOf(Suffix(archive), start, |archive|, at, r);
  }

  /** Reading the suffix accepts what reading the whole archive accepts, except
      that a locator in front of the suffix goes unseen. */
  lemma SuffixParseVersusWhole(archive: bytes, d: Directory)
    ensures EocdSpec(archive, 0, |archive|) == Success(d)
      <==> EocdSpec(Suffix(archive), SuffixStart(archive), |archive|) == Success(d) && !HiddenLocator(archive)
  {
    var start, tail := SuffixStart(archive), Suffix(archive);
    var at := EndRecordOffset(tail);
    assert at >= 0 ==> at + END_SIZE <= |tail|;
    hide *;
    if at < 0 {
      NoEndRecord(archive);
    } else {
      var r := EndRecordAt(tail, at);
      BothParses(archive, at, r);
      LocatorInSuffix(archive);
      LocatorDecides(r, start + at, SignatureAt(tail, at - 20, LOCATOR_SIGNATURE), HiddenLocator(archive), |archive|, d);
    }
  }

  /** No end record other than the written one is consistent with the bytes behind it. */
  ghost predicate NoFakeEnd(end: bytes) {
    forall k :: 0 < k ==> !IsEndRecord(end, k)
  }

  /** Behind a record whose longest possible comment is all zeros no comment length fits,
      and the record fills the whole suffix. */
  lemma ZerosFakeNothing(r: EndRecord)
    requires r.Fits() && |r.comment| == 65_535 && forall i :: 0 <= i < 65_535 ==> r.comment[i] == 0
    ensures |r.Encode()| == MAX_EOCD_SEARCH && NoFakeEnd(r.Encode())
  {
    ghost var end := r.Encode();
    assert forall i :: END_SIZE <= i < |end| ==> end[i] == 0;
    hide EndRecord.Encode;
    forall k: nat | 0 < k && k + END_SIZE <= |end|
      ensures !IsEndRecord(end, k)
    {
      ZerosFitNothing(end, k);
    }
  }

  lemma ZerosFitNothing(end: bytes, k: nat)
    requires |end| == MAX_EOCD_SEARCH && (forall i :: END_SIZE <= i < |end| ==> end[i] == 0)
    requires 0 < k && k + END_SIZE <= |end|
    ensures !IsEndRecord(end, k)
  {
    if k == 1 {
      assert end[22] == 0 && U16(end, 21) < 0x100;
    } else {
      assert end[k + 20] == 0 && end[k + 21] == 0 && U16(end, k + 20) == 0;
      if k == |end| - END_SIZE {
        assert end[k..k + 4][0] == end[k] == 0;
      }
    }
  }
}
