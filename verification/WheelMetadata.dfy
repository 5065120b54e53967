/** Extracting a wheel's METADATA through byte ranges. */
module WheelMetadata {
  import opened Wrappers
  import opened Bytes
  import opened ZipFormat
  import opened ZipFailures
  import opened EndOfCentralDirectory
  import opened CentralDirectory
  import opened RangeReader

  const MAX_COMPRESSED_METADATA_SIZE := 8 * 1024 * 1024
  const MAX_METADATA_SIZE := 8 * 1024 * 1024

  /** What inflating a raw deflate stream yields: its output, whether the stream
      ended, and whether bytes were left over. */
  datatype Inflated = Corrupt | Inflated(output: bytes, eof: bool, unused: bool)

  /** The libraries the reader relies on: name decoding, zlib, CRC-32, and the
      comparison of the dist-info directory with the wheel's file name. */
  datatype Codecs = Codecs(
    decode: Decoder, inflate: bytes -> Inflated, crc: bytes -> nat, matchesWheel: string -> bool)

  /** The server answers the k-th request of a run. */
  type Server = (nat, Range) -> Reply

  datatype Source = Remote(server: Server) | Whole(archive: bytes)

  /** A request that was made, how many bytes of its reply were collected, and how many
      of those were accepted. */
  datatype Exchange = Exchange(range: Range, kept: nat, accepted: nat)

  datatype Fetched = Fetched(data: Result<bytes, Failure>, log: seq<Exchange>)

  /** The outcome, the requests made, and the member whose data was asked for. */
  datatype Run = Run(result: Result<bytes, Failure>, log: seq<Exchange>, declared: Option<Member>)

  function Fetch(source: Source, log: seq<Exchange>, start: nat, length: nat, archiveSize: nat): (f: Fetched)
    ensures f.data.Success? ==> |f.data.value| == length > 0 && start + length <= archiveSize
  {
    if length == 0 || start + length > archiveSize then
      Fetched(Failure(InvalidByteRange), log)
    else
      match source
      case Whole(archive) =>
        if |archive| < archiveSize then Fetched(Failure(InvalidByteRange), log)
        else Fetched(Success(archive[start..start + length]), log)
      case Remote(server) =>
        var range := Between(start, start + length - 1);
        var reply := server(|log|, range);
        var data := FetchExact(reply, start, start + length - 1, archiveSize);
        Fetched(data, log + [Exchange(range, Kept(reply, None), if data.Success? then length else 0)])
  }

  /** Bytes come exactly from a non-empty range inside the archive: its own bytes, or a
      partial reply to a request for that range. */
  lemma FetchedExactly(source: Source, log: seq<Exchange>, start: nat, length: nat, archiveSize: nat, data: bytes)
    ensures Fetch(source, log, start, length, archiveSize).data == Success(data) <==>
      && 0 < length && start + length <= archiveSize
      && match source {
        case Whole(archive) => archiveSize <= |archive| && data == archive[start..start + length]
        case Remote(server) =>
          SendsPart(server(|log|, Between(start, start + length - 1)), start, start + length - 1, archiveSize, data)
      }
  {
    if 0 < length && start + length <= archiveSize && source.Remote? {
      RangeExact(source.server(|log|, Between(start, start + length - 1)), start, start + length - 1, archiveSize, data);
    }
    hide FetchExact;
    hide SendsPart;
  }

  predicate IsEncrypted(flags: nat) {
    Bit(flags, 0x01) || Bit(flags, 0x40)
  }

  function Decompress(codecs: Codecs, data: bytes, method_: nat, expectedSize: nat): Result<bytes, Failure> {
    if method_ == 0 then
      if |data| != expectedSize then Failure(StoredSizeMismatch) else Success(data)
    else if method_ != 8 then
      Failure(UnsupportedMethod)
    else
      match codecs.inflate(data)
      case Corrupt => Failure(InvalidDeflate)
      case Inflated(output, eof, unused) =>
        if |output| > MAX_METADATA_SIZE then Failure(DeflateTooLarge)
        else if |output| != expectedSize || !eof || unused then Failure(DeflatedSizeMismatch)
        else Success(output)
  }

  function Finish(codecs: Codecs, m: Member, compressed: bytes): Result<bytes, Failure> {
    var content :- Decompress(codecs, compressed, m.method_, m.uncompressedSize);
    if codecs.crc(content) % LIMIT32 != m.crc then Failure(CrcMismatch) else Success(content)
  }

  /** What the reader is waiting for. */
  datatype Stage =
    | WantCentral(entries: nat)
    | WantHeader(m: Member)
    | WantNames(m: Member, nameLength: nat)
    | WantData(m: Member)
  {
    /** How many more requests may follow once the bytes have arrived. */
    function Rank(): nat {
      match this
      case WantCentral(_) => 3
      case WantHeader(_) => 2
      case WantNames(_, _) => 1
      case WantData(_) => 0
    }
  }

  /** Stop with an outcome, or ask for a byte range and say what it is for. */
  datatype Decision =
    | Stop(result: Result<bytes, Failure>)
    | Ask(start: nat, length: nat, next: Stage)
  {
    function Rank(): nat {
      match this
      case Stop(_) => 0
      case Ask(_, _, next) => next.Rank() + 1
    }
  }

  /** The last bytes of the archive have arrived. */
  function DecideTail(tail: bytes, archiveSize: nat): Decision
    requires |tail| <= archiveSize
  {
    match EocdSpec(tail, archiveSize - |tail|, archiveSize)
    case Failure(e) => Stop(Failure(e))
    case Success(d) => Ask(d.offset, d.size, WantCentral(d.entries))
  }

  /** The checks on the member that the central directory names. */
  function CheckMember(codecs: Codecs, m: Member): Option<Failure> {
    if !codecs.matchesWheel(m.name) then Some(MemberDoesNotMatchWheel)
    else if IsEncrypted(m.flags) then Some(Encrypted)
    else if m.compressedSize > MAX_COMPRESSED_METADATA_SIZE || m.uncompressedSize > MAX_METADATA_SIZE then
      Some(MetadataTooLarge)
    else if m.compressedSize == 0 then Some(EmptyMetadata)
    else None
  }

  function DecideCentral(codecs: Codecs, entries: nat, central: bytes): Decision {
    match CentralSpec(codecs.decode, central, entries)
    case Failure(e) => Stop(Failure(e))
    case Success(m) =>
      match CheckMember(codecs, m)
      case Some(e) => Stop(Failure(e))
      case None => Ask(m.localOffset, LOCAL_SIZE, WantHeader(m))
  }

  function DecideHeader(m: Member, header: bytes): Decision {
    if |header| != LOCAL_SIZE || !SignatureAt(header, 0, LOCAL_SIGNATURE) then Stop(Failure(InvalidLocalHeader))
    else if U16(header, 6) != m.flags || U16(header, 8) != m.method_ then Stop(Failure(HeadersDisagree))
    else if IsEncrypted(U16(header, 6)) then Stop(Failure(Encrypted))
    else Ask(m.localOffset + LOCAL_SIZE, U16(header, 26) + U16(header, 28), WantNames(m, U16(header, 26)))
  }

  function DecideNames(codecs: Codecs, m: Member, nameLength: nat, variable: bytes): Decision {
    if nameLength > |variable| then Stop(Failure(InvalidByteRange)) else
    match DecodeName(codecs.decode, variable[..nameLength], m.flags)
    case Failure(e) => Stop(Failure(e))
    case Success(name) =>
      if name != m.name then Stop(Failure(NamesDisagree)) else
      match Zip64Spec(variable[nameLength..])
      case Failure(e) => Stop(Failure(e))
      case Success(zip64) =>
        if zip64 then Stop(Failure(Zip64))
        else Ask(m.localOffset + LOCAL_SIZE + |variable|, m.compressedSize, WantData(m))
  }

  /** The bytes the reader was waiting for have arrived: check them and go on. */
  function Decide(codecs: Codecs, stage: Stage, data: bytes): (d: Decision)
    ensures d.Rank() <= stage.Rank()
  {
    match stage
    case WantCentral(entries) => DecideCentral(codecs, entries, data)
    case WantHeader(m) => DecideHeader(m, data)
    case WantNames(m, nameLength) => DecideNames(codecs, m, nameLength, data)
    case WantData(m) => Stop(Finish(codecs, m, data))
  }

  /** Carries decisions out until one stops; `declared` is the member asked for so far. */
  function Drive(codecs: Codecs, source: Source, d: Decision, archiveSize: nat, log: seq<Exchange>, declared: Option<Member>): Run
    decreases d.Rank()
  {
    match d
    case Stop(result) => Run(result, log, declared)
    case Ask(start, length, next) =>
      var f := Fetch(source, log, start, length, archiveSize);
      var asked := if next.WantCentral? then None else Some(next.m);
      match f.data
      case Failure(e) => Run(Failure(e), f.log, asked)
      case Success(data) => Drive(codecs, source, Decide(codecs, next, data), archiveSize, f.log, asked)
  }

  const TAIL_REQUEST := SuffixOf(MAX_EOCD_SEARCH)

  /** The whole extraction against a server. */
  function Extract(codecs: Codecs, server: Server): Run {
    var reply := server(0, TAIL_REQUEST);
    var kept := Kept(reply, Some(MAX_EOCD_SEARCH));
    match FetchSuffix(reply, MAX_EOCD_SEARCH)
    case Failure(e) => Run(Failure(e), [Exchange(TAIL_REQUEST, kept, 0)], None)
    case Success(body) =>
      var source := if body.full then Whole(body.data) else Remote(server);
      Drive(codecs, source, DecideTail(body.data, body.total), body.total, [Exchange(TAIL_REQUEST, kept, |body.data|)], None)
  }

  /** Carries decisions out on the archive's own bytes. */
  function ReadWhole(codecs: Codecs, archive: bytes, d: Decision): Result<bytes, Failure>
    decreases d.Rank()
  {
    match d
    case Stop(result) => result
    case Ask(start, length, next) =>
      if length == 0 || start + length > |archive| then Failure(InvalidByteRange)
      else ReadWhole(codecs, archive, Decide(codecs, next, archive[start..start + length]))
  }

  /** The extraction as a function of the archive's bytes alone. */
  function LocalRead(codecs: Codecs, archive: bytes): Result<bytes, Failure> {
    if |archive| == 0 then Failure(InvalidArchiveSize)
    else if |archive| > MAX_ARCHIVE_SIZE then Failure(InvalidContentRangeBounds)
    else ReadWhole(codecs, archive, DecideTail(Suffix(archive), |archive|))
  }

  // ---------------------------------------------------------- the running reader

  method FetchBytes(source: Source, log: seq<Exchange>, start: nat, length: nat, archiveSize: nat) returns (f: Fetched)
    ensures f == Fetch(source, log, start, length, archiveSize)
  {
    if length <= 0 || start + length > archiveSize {
      return Fetched(Failure(InvalidByteRange), log);
    }
    if source.Whole? {
      if |source.archive| < archiveSize {
        return Fetched(Failure(InvalidByteRange), log);
      }
      return Fetched(Success(source.archive[start..start + length]), log);
    }
    var range := Between(start, start + length - 1);
    var body, kept := RangeResponse(source.server(|log|, range), None);
    if body.Failure? {
      return Fetched(Failure(body.error), log + [Exchange(range, kept, 0)]);
    }
    if body.value.total != archiveSize || body.value.start != start || body.value.end != start + length - 1 {
      return Fetched(Failure(WrongByteRange), log + [Exchange(range, kept, 0)]);
    }
    return Fetched(Success(body.value.data), log + [Exchange(range, kept, length)]);
  }

  /** The reader's straight line, with its loops: it does what `Extract` says. */
  method ExtractWheelMetadata(codecs: Codecs, server: Server) returns (run: Run)
    ensures run == Extract(codecs, server)
  {
    hide Drive;
    hide DecideTail;
    var body, kept := RangeResponse(server(0, TAIL_REQUEST), Some(MAX_EOCD_SEARCH));
    hide Kept;
    if body.Failure? {
      return Run(Failure(body.error), [Exchange(TAIL_REQUEST, kept, 0)], None);
    }
    var Body(tail, start, end, archiveSize, isFull) := body.value;
    var expectedStart := if archiveSize > MAX_EOCD_SEARCH then archiveSize - MAX_EOCD_SEARCH else 0;
    if start != expectedStart || end != archiveSize - 1 {
      return Run(Failure(WrongSuffixRange), [Exchange(TAIL_REQUEST, kept, 0)], None);
    }
    var source := if isFull then Whole(tail) else Remote(server);
    run := ReadDirectory(codecs, source, tail, archiveSize, [Exchange(TAIL_REQUEST, kept, |tail|)]);
  }

  /** From the archive's last bytes on: find the central directory and fetch it. */
  method ReadDirectory(codecs: Codecs, source: Source, tail: bytes, archiveSize: nat, log: seq<Exchange>) returns (run: Run)
    requires |tail| <= archiveSize
    ensures run == Drive(codecs, source, DecideTail(tail, archiveSize), archiveSize, log, None)
  {
    hide EocdSpec;
    hide Fetch;
    var directory := ParseEocd(tail, archiveSize - |tail|, archiveSize);
    if directory.Failure? {
      return Run(Failure(directory.error), log, None);
    }
    var d := directory.value;
    var central := FetchBytes(source, log, d.offset, d.size, archiveSize);
    if central.data.Failure? {
      return Run(Failure(central.data.error), central.log, None);
    }
    run := ReadMember(codecs, source, central.data.value, d.entries, archiveSize, central.log);
  }

  /** From the central directory on: pick the member and read its local header. */
  method ReadMember(codecs: Codecs, source: Source, central: bytes, entries: nat, archiveSize: nat, log: seq<Exchange>)
    returns (run: Run)
    ensures run == Drive(codecs, source, DecideCentral(codecs, entries, central), archiveSize, log, None)
  {
    var member := ParseCentralDirectory(codecs.decode, central, entries);
    if member.Failure? {
      return Run(Failure(member.error), log, None);
    }
    var m := member.value;
    var refused := CheckMember(codecs, m);
    if refused.Some? {
      return Run(Failure(refused.value), log, None);
    }
    var header := FetchBytes(source, log, m.localOffset, LOCAL_SIZE, archiveSize);
    if header.data.Failure? {
      return Run(Failure(header.data.error), header.log, Some(m));
    }
    run := ReadLocal(codecs, source, m, header.data.value, archiveSize, header.log);
  }

  /** From the local header on: its name and extra field. */
  method ReadLocal(codecs: Codecs, source: Source, m: Member, header: bytes, archiveSize: nat, log: seq<Exchange>)
    returns (run: Run)
    requires |header| == LOCAL_SIZE
    ensures run == Drive(codecs, source, DecideHeader(m, header), archiveSize, log, Some(m))
    ensures run.result.Success? ==> header[..4] == [0x50, 0x4B, 3, 4] && U16(header, 6) == m.flags && U16(header, 8) == m.method_
  {
    hide DecideNames;
    hide Fetch;
    hide IsEncrypted;
    if header[..4] != LOCAL_SIGNATURE {
      return Run(Failure(InvalidLocalHeader), log, Some(m));
    }
    var localFlags, localMethod := U16(header, 6), U16(header, 8);
    if localFlags != m.flags || localMethod != m.method_ {
      return Run(Failure(HeadersDisagree), log, Some(m));
    }
    if IsEncrypted(localFlags) {
      return Run(Failure(Encrypted), log, Some(m));
    }
    var nameLength, extraLength := U16(header, 26), U16(header, 28);
    var variable := FetchBytes(source, log, m.localOffset + LOCAL_SIZE, nameLength + extraLength, archiveSize);
    if variable.data.Failure? {
      return Run(Failure(variable.data.error), variable.log, Some(m));
    }
    run := ReadData(codecs, source, m, nameLength, variable.data.value, archiveSize, variable.log);
  }

  lemma NameIsDecoded(decode: Decoder, rawName: bytes, flags: nat)
    ensures forall name :: DecodeName(decode, rawName, flags) == Success(name) <==> NameOf(decode, rawName, flags) == Some(name)
  {
  }

  lemma DriveStops(codecs: Codecs, source: Source, result: Result<bytes, Failure>, archiveSize: nat, log: seq<Exchange>, declared: Option<Member>)
    ensures Drive(codecs, source, Stop(result), archiveSize, log, declared) == Run(result, log, declared)
  {
  }

  /** From the local name on: the member's data. */
  method ReadData(codecs: Codecs, source: Source, m: Member, nameLength: nat, variable: bytes,
                  archiveSize: nat, log: seq<Exchange>) returns (run: Run)
    requires nameLength <= |variable|
    ensures run == Drive(codecs, source, DecideNames(codecs, m, nameLength, variable), archiveSize, log, Some(m))
    ensures run.result.Success? ==>
      NameOf(codecs.decode, variable[..nameLength], m.flags) == Some(m.name) && PlainExtra(variable[nameLength..])
  {
    hide Drive;
    hide Zip64Spec;
    hide PlainExtra;
    NameIsDecoded(codecs.decode, variable[..nameLength], m.flags);
    hide NameOf;
    var name := DecodeName(codecs.decode, variable[..nameLength], m.flags);
    hide DecodeName;
    if name.Failure? {
      DriveStops(codecs, source, Failure(name.error), archiveSize, log, Some(m));
      return Run(Failure(name.error), log, Some(m));
    }
    if name.value != m.name {
      DriveStops(codecs, source, Failure(NamesDisagree), archiveSize, log, Some(m));
      return Run(Failure(NamesDisagree), log, Some(m));
    }
    NoZip64Exact(variable[nameLength..]);
    var zip64 := HasZip64Extra(variable[nameLength..]);
    if zip64.Failure? || zip64.value {
      var refused := if zip64.Failure? then zip64.error else Zip64;
      DriveStops(codecs, source, Failure(refused), archiveSize, log, Some(m));
      return Run(Failure(refused), log, Some(m));
    }
    run := FetchData(codecs, source, m, m.localOffset + LOCAL_SIZE + |variable|, archiveSize, log);
  }

  /** The data, fetched and decompressed. */
  method FetchData(codecs: Codecs, source: Source, m: Member, start: nat, archiveSize: nat, log: seq<Exchange>) returns (run: Run)
    ensures run == Drive(codecs, source, Ask(start, m.compressedSize, WantData(m)), archiveSize, log, Some(m))
  {
    hide Fetch;
    hide Finish;
    var compressed := FetchBytes(source, log, start, m.compressedSize, archiveSize);
    if compressed.data.Failure? {
      return Run(Failure(compressed.data.error), compressed.log, Some(m));
    }
    return Run(Finish(codecs, m, compressed.data.value), compressed.log, Some(m));
  }

  // ------------------------------------------------------------------- any server

  function AcceptedBytes(log: seq<Exchange>): nat {
    if log == [] then 0 else AcceptedBytes(log[..|log| - 1]) + log[|log| - 1].accepted
  }

  ghost predicate InsideArchive(range: Range, archiveSize: nat) {
    range == TAIL_REQUEST || (range.Between? && range.start <= range.end < archiveSize)
  }

  /** At most `requests` more requests and `budget` more accepted bytes, all inside the archive. */
  ghost predicate Within(before: seq<Exchange>, after: seq<Exchange>, requests: nat, budget: nat, archiveSize: nat) {
    && before <= after
    && |after| <= |before| + requests
    && AcceptedBytes(after) <= AcceptedBytes(before) + budget
    && forall i :: |before| <= i < |after| ==> InsideArchive(after[i].range, archiveSize)
  }

  lemma WithinChain(a: seq<Exchange>, b: seq<Exchange>, c: seq<Exchange>, n: nat, n': nat, most: nat, most': nat, size: nat)
    requires Within(a, b, n, most, size) && Within(b, c, n', most', size)
    ensures Within(a, c, n + n', most + most', size)
  {
    assert forall i :: |a| <= i < |b| ==> b[i] == c[i];
  }

  lemma FetchWithin(source: Source, log: seq<Exchange>, start: nat, length: nat, size: nat)
    ensures Within(log, Fetch(source, log, start, length, size).log, 1, length, size)
  {
    var f := Fetch(source, log, start, length, size);
    if f.log != log {
      assert f.log[..|f.log| - 1] == log;
    }
  }

  /** A member that passed every check on the central directory's word. */
  ghost predicate Admissible(codecs: Codecs, m: Member) {
    && IsMetadataName(m.name) && codecs.matchesWheel(m.name)
    && !IsEncrypted(m.flags)
    && 0 < m.compressedSize <= MAX_COMPRESSED_METADATA_SIZE
    && m.uncompressedSize <= MAX_METADATA_SIZE
  }

  /** A result has the declared size and checksum of an admissible member. */
  ghost predicate Sound(codecs: Codecs, run: Run) {
    run.result.Success? ==>
      && run.declared.Some? && Admissible(codecs, run.declared.value)
      && |run.result.value| == run.declared.value.uncompressedSize
      && codecs.crc(run.result.value) % LIMIT32 == run.declared.value.crc
  }

  const MAX_VARIABLE := 65_535 + 65_535

  /** The most bytes that a stage and those after it can ask for. */
  ghost function Budget(d: Decision): nat {
    match d
    case Stop(_) => 0
    case Ask(_, length, WantCentral(_)) => MAX_CENTRAL_DIRECTORY_SIZE + LOCAL_SIZE + MAX_VARIABLE + MAX_COMPRESSED_METADATA_SIZE
    case Ask(_, length, WantHeader(_)) => LOCAL_SIZE + MAX_VARIABLE + MAX_COMPRESSED_METADATA_SIZE
    case Ask(_, length, WantNames(_, _)) => MAX_VARIABLE + MAX_COMPRESSED_METADATA_SIZE
    case Ask(_, length, WantData(_)) => MAX_COMPRESSED_METADATA_SIZE
  }

  /** What every decision on the way keeps: bounded requests for an admissible member. */
  ghost predicate Sane(codecs: Codecs, d: Decision) {
    match d
    case Stop(result) => result.Failure?
    case Ask(_, length, WantCentral(_)) => length <= MAX_CENTRAL_DIRECTORY_SIZE
    case Ask(_, length, WantHeader(m)) => length == LOCAL_SIZE && Admissible(codecs, m)
    case Ask(_, length, WantNames(m, _)) => length <= MAX_VARIABLE && Admissible(codecs, m)
    case Ask(_, length, WantData(m)) => length == m.compressedSize && Admissible(codecs, m)
  }

  lemma DecideCentralSane(codecs: Codecs, entries: nat, central: bytes)
    ensures Sane(codecs, DecideCentral(codecs, entries, central))
  {
    var member := CentralSpec(codecs.decode, central, entries);
    if member.Success? {
      OnlyMetadataIsChosen(codecs.decode, central, entries, member.value);
    }
    hide CentralSpec;
    hide IsMetadataName;
  }

  lemma OnlyMetadataIsChosen(decode: Decoder, central: bytes, entries: nat, m: Member)
    requires CentralSpec(decode, central, entries) == Success(m)
    ensures IsMetadataName(m.name)
  {
    CentralExact(decode, central, entries, m);
    hide CentralSpec;
    var records :| Tiles(decode, central, entries, records, m);
    var i :| IsOnly(decode, records, m, i);
    MetadataIsNamed(decode, records[i], m);
    hide IsMetadataName;
    hide AllAcceptable;
  }

  lemma DecideSane(codecs: Codecs, d: Decision, data: bytes)
    requires Sane(codecs, d) && d.Ask? && !d.next.WantData?
    ensures Sane(codecs, Decide(codecs, d.next, data))
    ensures d.length + Budget(Decide(codecs, d.next, data)) <= Budget(d)
  {
    if d.next.WantCentral? {
      DecideCentralSane(codecs, d.next.entries, data);
    }
  }

  lemma FinishSound(codecs: Codecs, m: Member, data: bytes, log: seq<Exchange>)
    requires Admissible(codecs, m)
    ensures Sound(codecs, Run(Finish(codecs, m, data), log, Some(m)))
  {
  }

  lemma {:induction false} DriveWithin(codecs: Codecs, source: Source, d: Decision, size: nat, log: seq<Exchange>, declared: Option<Member>)
    requires Sane(codecs, d)
    ensures var run := Drive(codecs, source, d, size, log, declared);
      Sound(codecs, run) && Within(log, run.log, d.Rank(), Budget(d), size)
    decreases d.Rank()
  {
    if d.Ask? {
      var f := Fetch(source, log, d.start, d.length, size);
      FetchWithin(source, log, d.start, d.length, size);
      if f.data.Success? {
        var data := f.data.value;
        var asked := if d.next.WantCentral? then None else Some(d.next.m);
        var d' := Decide(codecs, d.next, data);
        if d.next.WantData? {
          FinishSound(codecs, d.next.m, data, f.log);
        } else {
          DecideSane(codecs, d, data);
          DriveWithin(codecs, source, d', size, f.log, asked);
          WithinChain(log, f.log, Drive(codecs, source, d', size, f.log, asked).log,
                      1, d'.Rank(), d.length, Budget(d'), size);
        }
      }
    }
  }

  const MAX_REQUESTS := 5
  const MAX_ACCEPTED := 42_139_697

  /** The exchange that opens every run. */
  function FirstExchange(server: Server): Exchange {
    var reply := server(0, TAIL_REQUEST);
    var tail := FetchSuffix(reply, MAX_EOCD_SEARCH);
    Exchange(TAIL_REQUEST, Kept(reply, Some(MAX_EOCD_SEARCH)), if tail.Success? then |tail.value.data| else 0)
  }

  /** Whatever the server replies: what is returned has the declared size and CRC,
      every range asked for lies inside the archive, and the whole run stays in budget. */
  lemma ExtractionSoundAndBounded(codecs: Codecs, server: Server) returns (archiveSize: nat)
    ensures var run := Extract(codecs, server);
      && Sound(codecs, run)
      && |run.log| <= MAX_REQUESTS
      && AcceptedBytes(run.log) <= MAX_ACCEPTED
      && (forall i :: 0 <= i < |run.log| ==> InsideArchive(run.log[i].range, archiveSize))
    ensures archiveSize <= MAX_ARCHIVE_SIZE
    ensures var tail := FetchSuffix(server(0, TAIL_REQUEST), MAX_EOCD_SEARCH);
      tail.Success? ==> archiveSize == tail.value.total
  {
    hide Drive;
    hide FetchSuffix;
    hide Kept;
    var tail := FetchSuffix(server(0, TAIL_REQUEST), MAX_EOCD_SEARCH);
    archiveSize := 0;
    var log := [FirstExchange(server)];
    assert log[..0] == [] && AcceptedBytes(log) == log[0].accepted;
    if tail.Success? {
      var body := tail.value;
      archiveSize := body.total;
      var source := if body.full then Whole(body.data) else Remote(server);
      DriveWithin(codecs, source, DecideTail(body.data, body.total), archiveSize, log, None);
    }
  }

  // ------------------------------------------------------------- collected bytes

  function KeptBytes(log: seq<Exchange>): nat {
    if log == [] then 0 else KeptBytes(log[..|log| - 1]) + log[|log| - 1].kept
  }

  /** Of each of these replies exactly what was accepted had been collected. */
  ghost predicate Settled(log: seq<Exchange>) {
    forall i :: 0 <= i < |log| ==> log[i].kept == log[i].accepted
  }

  /** All replies were accepted whole, or the last one was refused and the run with it. */
  ghost predicate RefusedAtMostLast(run: Run) {
    || Settled(run.log)
    || (run.log != [] && run.result.Failure? && run.log[|run.log| - 1].accepted == 0
        && run.log[|run.log| - 1].kept <= MAX_ARCHIVE_SIZE && Settled(run.log[..|run.log| - 1]))
  }

  lemma {:induction false} SettledSums(log: seq<Exchange>)
    requires Settled(log)
    ensures KeptBytes(log) == AcceptedBytes(log)
  {
    if log != [] {
      SettledSums(log[..|log| - 1]);
    }
  }

  lemma FetchSettles(source: Source, log: seq<Exchange>, start: nat, length: nat, size: nat)
    requires Settled(log)
    ensures var f := Fetch(source, log, start, length, size);
      if f.data.Success? then Settled(f.log) else RefusedAtMostLast(Run(Failure(f.data.error), f.log, None))
  {
    var f := Fetch(source, log, start, length, size);
    if f.log != log && source.Remote? {
      var range := Between(start, start + length - 1);
      var reply := source.server(|log|, range);
      assert f.log[..|f.log| - 1] == log;
      if f.data.Success? {
        AcceptedIsKept(reply, None);
      }
    }
  }

  lemma {:induction false} DriveRefusesAtMostLast(
    codecs: Codecs, source: Source, d: Decision, size: nat, log: seq<Exchange>, declared: Option<Member>)
    requires Settled(log)
    ensures RefusedAtMostLast(Drive(codecs, source, d, size, log, declared))
    decreases d.Rank()
  {
    hide Decide;
    if d.Ask? {
      var f := Fetch(source, log, d.start, d.length, size);
      FetchSettles(source, log, d.start, d.length, size);
      hide Fetch;
      if f.data.Success? {
        var asked := if d.next.WantCentral? then None else Some(d.next.m);
        DriveRefusesAtMostLast(codecs, source, Decide(codecs, d.next, f.data.value), size, f.log, asked);
      }
    }
  }

  /** For any server the bytes collected stay within the same budget, except through one
      reply: a refused one, which is the last of the run and fails it. */
  lemma CollectedBeyondBudget(codecs: Codecs, server: Server)
    ensures var run := Extract(codecs, server);
      run.log != [] && var before, last := run.log[..|run.log| - 1], run.log[|run.log| - 1];
      && KeptBytes(run.log) == KeptBytes(before) + last.kept && KeptBytes(before) <= MAX_ACCEPTED
      && (KeptBytes(run.log) > MAX_ACCEPTED ==> run.result.Failure? && last.accepted == 0 && last.kept <= MAX_ARCHIVE_SIZE)
  {
    var run := Extract(codecs, server);
    var size := ExtractionSoundAndBounded(codecs, server);
    RunRefusesAtMostLast(codecs, server);
    hide Extract;
    if Settled(run.log) {
      SettledSums(run.log);
    } else {
      SettledSums(run.log[..|run.log| - 1]);
    }
  }

  lemma RunRefusesAtMostLast(codecs: Codecs, server: Server)
    ensures Extract(codecs, server).log != [] && RefusedAtMostLast(Extract(codecs, server))
  {
    var reply := server(0, TAIL_REQUEST);
    var tail := FetchSuffix(reply, MAX_EOCD_SEARCH);
    var log := [FirstExchange(server)];
    assert log[..0] == [];
    if tail.Success? {
      var body := tail.value;
      AcceptedIsKept(reply, Some(MAX_EOCD_SEARCH));
      hide Kept;
      hide FetchSuffix;
      var source := if body.full then Whole(body.data) else Remote(server);
      var d := DecideTail(body.data, body.total);
      DriveRefusesAtMostLast(codecs, source, d, body.total, log, None);
      hide Drive;
      DriveLogs(codecs, source, d, body.total, log, None);
    }
  }

  lemma {:induction false} DriveLogs(codecs: Codecs, source: Source, d: Decision, size: nat, log: seq<Exchange>, declared: Option<Member>)
    ensures log <= Drive(codecs, source, d, size, log, declared).log
    decreases d.Rank()
  {
    hide Decide;
    if d.Ask? {
      var f := Fetch(source, log, d.start, d.length, size);
      if f.data.Success? {
        var asked := if d.next.WantCentral? then None else Some(d.next.m);
        DriveLogs(codecs, source, Decide(codecs, d.next, f.data.value), size, f.log, asked);
      }
    }
  }

  /** No server gets anything read without the archive's last bytes, sent as such. */
  lemma NothingWithoutTail(codecs: Codecs, server: Server)
    requires Extract(codecs, server).result.Success?
    ensures var tail := FetchSuffix(server(0, TAIL_REQUEST), 65_557);
      && tail.Success? && tail.value.end == tail.value.total - 1
      && tail.value.start == if tail.value.total > 65_557 then tail.value.total - 65_557 else 0
  {
    var reply := server(0, TAIL_REQUEST);
    var tail := FetchSuffix(reply, MAX_EOCD_SEARCH);
    assert tail.Success?;
    SuffixExact(reply, MAX_EOCD_SEARCH, tail.value);
    hide Drive;
  }

  // --------------------------------------------------------------- honest servers

  ghost predicate Honest(server: Server, archive: bytes) {
    forall k, range :: HonestReply(server(k, range), range, archive)
  }

  /** The server that holds exactly these bytes. */
  function ServerOf(archive: bytes): Server {
    (k, range) => ReplyOf(archive, range)
  }

  lemma ServerOfIsHonest(archive: bytes)
    ensures Honest(ServerOf(archive), archive)
  {
    forall k: nat, range: Range
      ensures HonestReply(ServerOf(archive)(k, range), range, archive)
    {
      ReplyOfIsHonest(archive, range);
    }
  }

  /** A source that holds the archive: its own bytes, or an honest server. */
  ghost predicate Serves(source: Source, archive: bytes) {
    match source
    case Whole(bytes_) => bytes_ == archive
    case Remote(server) => Honest(server, archive)
  }

  lemma FetchServed(source: Source, archive: bytes, log: seq<Exchange>, start: nat, length: nat)
    requires Serves(source, archive) && |archive| <= MAX_ARCHIVE_SIZE
    ensures Fetch(source, log, start, length, |archive|).data ==
      if length == 0 || start + length > |archive| then Failure(InvalidByteRange)
      else Success(archive[start..start + length])
  {
    if 0 < length && start + length <= |archive| && source.Remote? {
      var range := Between(start, start + length - 1);
      HonestExact(source.server(|log|, range), start, start + length - 1, archive);
    }
  }

  lemma {:induction false} DriveServed(codecs: Codecs, source: Source, archive: bytes, d: Decision,
                                        log: seq<Exchange>, declared: Option<Member>)
    requires Serves(source, archive) && |archive| <= MAX_ARCHIVE_SIZE
    ensures Drive(codecs, source, d, |archive|, log, declared).result == ReadWhole(codecs, archive, d)
    decreases d.Rank()
  {
    hide Decide;
    hide FetchExact;
    if d.Ask? {
      var f := Fetch(source, log, d.start, d.length, |archive|);
      FetchServed(source, archive, log, d.start, d.length);
      if f.data.Success? {
        var asked := if d.next.WantCentral? then None else Some(d.next.m);
        DriveServed(codecs, source, archive, Decide(codecs, d.next, f.data.value), f.log, asked);
      }
    }
  }

  /** Against any honest server, with 206 replies or an allowed full 200 reply, the
      outcome -- bytes or failure -- is the one of reading the archive's own bytes. */
  lemma RangedReadRefinesLocal(codecs: Codecs, server: Server, archive: bytes)
    requires Honest(server, archive)
    ensures Extract(codecs, server).result == LocalRead(codecs, archive)
  {
    HonestSuffix(server(0, TAIL_REQUEST), MAX_EOCD_SEARCH, archive);
    if 0 < |archive| <= MAX_ARCHIVE_SIZE {
      var body := FetchSuffix(server(0, TAIL_REQUEST), MAX_EOCD_SEARCH).value;
      var source := if body.full then Whole(body.data) else Remote(server);
      assert body.data == Suffix(archive) && body.total == |archive|;
      DriveServed(codecs, source, archive, DecideTail(body.data, |archive|), [FirstExchange(server)], None);
    }
  }

  /** A reader that searches the whole archive for its end record. */
  function StrictRead(codecs: Codecs, archive: bytes): Result<bytes, Failure> {
    if |archive| == 0 then Failure(InvalidArchiveSize)
    else if |archive| > MAX_ARCHIVE_SIZE then Failure(InvalidContentRangeBounds)
    else ReadWhole(codecs, archive, DecideTail(archive, |archive|))
  }

  lemma TailVersusWhole(codecs: Codecs, archive: bytes, content: bytes)
    ensures ReadWhole(codecs, archive, DecideTail(archive, |archive|)) == Success(content)
      <==> ReadWhole(codecs, archive, DecideTail(Suffix(archive), |archive|)) == Success(content) && !HiddenLocator(archive)
  {
    hide ReadWhole;
    hide EocdSpec;
    hide HiddenLocator;
    assert SuffixStart(archive) == |archive| - |Suffix(archive)|;
    hide Suffix;
    hide SuffixStart;
    var whole, tail := EocdSpec(archive, 0, |archive|), EocdSpec(Suffix(archive), SuffixStart(archive), |archive|);
    if whole.Success? {
      SuffixParseVersusWhole(archive, whole.value);
    } else {
      StopReads(codecs, archive, whole.error);
    }
    if tail.Success? {
      SuffixParseVersusWhole(archive, tail.value);
    } else {
      StopReads(codecs, archive, tail.error);
    }
  }

  lemma StopReads(codecs: Codecs, archive: bytes, error: Failure)
    ensures ReadWhole(codecs, archive, Stop(Failure(error))) == Failure(error)
  {
  }

  /** Ranged reading succeeds exactly when a search of the whole archive would, with the
      same bytes -- but for a ZIP64 locator that lies in front of the fetched suffix. */
  lemma RangedReadVersusWholeArchive(codecs: Codecs, server: Server, archive: bytes, content: bytes)
    requires Honest(server, archive)
    ensures StrictRead(codecs, archive) == Success(content)
      <==> Extract(codecs, server).result == Success(content) && !HiddenLocator(archive)
  {
    RangedReadRefinesLocal(codecs, server, archive);
    TailVersusWhole(codecs, archive, content);
  }
}
