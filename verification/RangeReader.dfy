/** Reading one range reply, whatever the server sends. */
module RangeReader {
  import opened Wrappers
  import opened Bytes
  import opened ZipFailures

  const MAX_ARCHIVE_SIZE := 32 * 1024 * 1024 * 1024

  datatype Range =
    | SuffixOf(length: nat)
    | Between(start: nat, end: nat)

  datatype ContentLength = Absent | Unparsable | Declared(n: int)

  /** The Content-Range header, when it has the form `bytes start-end/total`. */
  datatype ContentRange = ContentRange(start: nat, end: nat, total: nat)

  /** A reply: `identity` when no content encoding was used, and the body in the
      chunks the transport delivers it in. */
  datatype Reply = Reply(
    status: int, identity: bool, contentLength: ContentLength,
    contentRange: Option<ContentRange>, chunks: seq<bytes>)

  datatype Body = Body(data: bytes, start: nat, end: nat, total: nat, full: bool)

  function Join(chunks: seq<bytes>): bytes {
    if chunks == [] then [] else Join(chunks[..|chunks| - 1]) + chunks[|chunks| - 1]
  }

  /** The meaning of a 200 reply: depends on the whole body, not on its chunks. */
  function ReadFull(reply: Reply, allow: Option<nat>): Result<Body, Failure> {
    var data := Join(reply.chunks);
    var length := reply.contentLength;
    if allow.None? then Failure(RangeNotSupported)
    else if length.Unparsable? then Failure(InvalidContentLength)
    else if length.Declared? && length.n > allow.value then Failure(RangeNotSupported)
    else if |data| > allow.value then Failure(RangeNotSupported)
    else if length.Declared? && length.n != |data| then Failure(ContentLengthMismatch)
    else if |data| == 0 || |data| > MAX_ARCHIVE_SIZE then Failure(InvalidArchiveSize)
    else Success(Body(data, 0, |data| - 1, |data|, true))
  }

  /** The meaning of a 206 reply. */
  function ReadPartial(reply: Reply): Result<Body, Failure> {
    var data := Join(reply.chunks);
    match reply.contentRange {
      case None => Failure(InvalidContentRange)
      case Some(range) =>
        if range.total == 0 || range.total > MAX_ARCHIVE_SIZE || range.start > range.end || range.end >= range.total then
          Failure(InvalidContentRangeBounds)
        else
          var expected := range.end - range.start + 1;
          if reply.contentLength.Unparsable? then Failure(InvalidContentLength)
          else if reply.contentLength.Declared? && reply.contentLength.n != expected then Failure(ContentLengthMismatch)
          else if |data| > expected then Failure(ResponseTooLong)
          else if |data| < expected then Failure(ResponseTruncated)
          else Success(Body(data, range.start, range.end, range.total, false))
    }
  }

  function ReadReply(reply: Reply, allow: Option<nat>): (result: Result<Body, Failure>)
    ensures result.Success? ==>
      && result.value.start <= result.value.end < result.value.total <= MAX_ARCHIVE_SIZE
      && |result.value.data| == result.value.end - result.value.start + 1
    ensures result.Success? && result.value.full ==>
      allow.Some? && |result.value.data| == result.value.total <= allow.value
  {
    if !reply.identity then Failure(ContentEncodingUsed)
    else if reply.status == 200 then ReadFull(reply, allow)
    else if reply.status != 206 then Failure(UnexpectedStatus)
    else ReadPartial(reply)
  }

  lemma {:induction false} JoinGrows(chunks: seq<bytes>, k: nat)
    requires k <= |chunks|
    ensures |Join(chunks[..k])| <= |Join(chunks)|
    decreases |chunks|
  {
    if k < |chunks| {
      JoinGrows(chunks[..|chunks| - 1], k);
      assert chunks[..|chunks| - 1][..k] == chunks[..k];
    } else {
      assert chunks[..k] == chunks;
    }
  }

  lemma JoinStep(chunks: seq<bytes>, k: nat)
    requires k < |chunks|
    ensures Join(chunks[..k + 1]) == Join(chunks[..k]) + chunks[k]
  {
    assert chunks[..k + 1][..k] == chunks[..k];
  }

  lemma JoinOne(chunk: bytes)
    ensures Join([chunk]) == chunk
  {
    assert [chunk][..0] == [];
  }

  // ------------------------------------------------------------ what is collected

  /** The headers of a 206 reply that make the reader collect its body. */
  predicate PartialHeadersPass(reply: Reply) {
    && reply.identity && reply.status == 206 && reply.contentRange.Some?
    && var range := reply.contentRange.value;
       && 0 < range.total <= MAX_ARCHIVE_SIZE && range.start <= range.end < range.total
       && (reply.contentLength == Absent || reply.contentLength == Declared(range.end - range.start + 1))
  }

  predicate FullHeadersPass(reply: Reply, allow: Option<nat>) {
    && reply.identity && reply.status == 200 && allow.Some?
    && !reply.contentLength.Unparsable? && (reply.contentLength.Declared? ==> reply.contentLength.n <= allow.value)
  }

  /** Up to how many bytes the reader collects: none at all, what it allows a full reply,
      or what a partial reply declares about itself. */
  function CollectLimit(reply: Reply, allow: Option<nat>): (limit: nat)
    ensures limit <= MAX_ARCHIVE_SIZE || (allow.Some? && limit == allow.value)
  {
    if FullHeadersPass(reply, allow) then allow.value
    else if PartialHeadersPass(reply) then reply.contentRange.value.end - reply.contentRange.value.start + 1
    else 0
  }

  /** The number of leading chunks that are collected before the limit would be exceeded. */
  function KeptChunks(chunks: seq<bytes>, limit: nat, k: nat := 0): (n: nat)
    requires k <= |chunks| && |Join(chunks[..k])| <= limit
    ensures k <= n <= |chunks| && |Join(chunks[..n])| <= limit
    ensures n < |chunks| ==> |Join(chunks[..n + 1])| > limit
    decreases |chunks| - k
  {
    if k == |chunks| || |Join(chunks[..k + 1])| > limit then k else KeptChunks(chunks, limit, k + 1)
  }

  /** The bytes of a reply that the reader has collected when it comes to its verdict. */
  function Kept(reply: Reply, allow: Option<nat>): nat {
    |Join(reply.chunks[..KeptChunks(reply.chunks, CollectLimit(reply, allow))])|
  }

  /** Collects chunks until they exceed `limit`; stops at the first one that does. */
  method ReceiveUpTo(chunks: seq<bytes>, limit: nat) returns (data: bytes, received: nat, exceeded: bool)
    ensures exceeded <==> |Join(chunks)| > limit
    ensures !exceeded ==> data == Join(chunks) && received == |data|
    ensures data == Join(chunks[..KeptChunks(chunks, limit)])
  {
    data, received, exceeded := [], 0, false;
    for i := 0 to |chunks|
      invariant data == Join(chunks[..i]) && received == |data| <= limit
      invariant KeptChunks(chunks, limit) == KeptChunks(chunks, limit, i)
    {
      JoinStep(chunks, i);
      received := received + |chunks[i]|;
      if received > limit {
        JoinGrows(chunks, i + 1);
        exceeded := true;
        return;
      }
      data := data + chunks[i];
    }
    assert chunks[..|chunks|] == chunks;
  }

  /** Nothing is collected when the limit is zero. */
  lemma NothingKept(reply: Reply, allow: Option<nat>)
    requires CollectLimit(reply, allow) == 0
    ensures Kept(reply, allow) == 0
  {
  }

  /** A 200 reply: the whole object, where it is allowed. */
  method FullResponse(reply: Reply, allow: Option<nat>) returns (result: Result<Body, Failure>, kept: nat)
    requires reply.identity && reply.status == 200
    ensures result == ReadFull(reply, allow)
    ensures kept == Kept(reply, allow)
  {
    kept := 0;
    if !FullHeadersPass(reply, allow) {
      NothingKept(reply, allow);
    }
    if allow.None? {
      return Failure(RangeNotSupported), kept;
    }
    var limit := allow.value;
    if reply.contentLength.Unparsable? {
      return Failure(InvalidContentLength), kept;
    }
    if reply.contentLength.Declared? && reply.contentLength.n > limit {
      return Failure(RangeNotSupported), kept;
    }
    var data, received, exceeded := ReceiveUpTo(reply.chunks, limit);
    hide KeptChunks;
    kept := |data|;
    if exceeded {
      return Failure(RangeNotSupported), kept;
    }
    if reply.contentLength.Declared? && received != reply.contentLength.n {
      return Failure(ContentLengthMismatch), kept;
    }
    if received <= 0 || received > MAX_ARCHIVE_SIZE {
      return Failure(InvalidArchiveSize), kept;
    }
    return Success(Body(data, 0, received - 1, received, true)), kept;
  }

  /** A 206 reply: as much as its Content-Range declares. */
  method PartialResponse(reply: Reply, allow: Option<nat>) returns (result: Result<Body, Failure>, kept: nat)
    requires reply.identity && reply.status == 206
    ensures result == ReadPartial(reply)
    ensures kept == Kept(reply, allow)
  {
    kept := 0;
    if !PartialHeadersPass(reply) {
      NothingKept(reply, allow);
    }
    if reply.contentRange.None? {
      return Failure(InvalidContentRange), kept;
    }
    var ContentRange(start, end, total) := reply.contentRange.value;
    if total <= 0 || total > MAX_ARCHIVE_SIZE || start > end || end >= total {
      return Failure(InvalidContentRangeBounds), kept;
    }
    var expected := end - start + 1;
    if reply.contentLength.Unparsable? {
      return Failure(InvalidContentLength), kept;
    }
    if reply.contentLength.Declared? && reply.contentLength.n != expected {
      return Failure(ContentLengthMismatch), kept;
    }
    var data, received, exceeded := ReceiveUpTo(reply.chunks, expected);
    hide KeptChunks;
    kept := |data|;
    if exceeded {
      return Failure(ResponseTooLong), kept;
    }
    if received != expected {
      return Failure(ResponseTruncated), kept;
    }
    return Success(Body(data, start, end, total, false)), kept;
  }

  method RangeResponse(reply: Reply, allow: Option<nat>) returns (result: Result<Body, Failure>, kept: nat)
    ensures result == ReadReply(reply, allow)
    ensures kept == Kept(reply, allow)
  {
    if !reply.identity || (reply.status != 200 && reply.status != 206) {
      NothingKept(reply, allow);
      return Failure(if !reply.identity then ContentEncodingUsed else UnexpectedStatus), 0;
    }
    hide Kept;
    if reply.status == 200 {
      result, kept := FullResponse(reply, allow);
    } else {
      result, kept := PartialResponse(reply, allow);
    }
  }

  /** An accepted reply was collected whole. */
  lemma AcceptedIsKept(reply: Reply, allow: Option<nat>)
    requires ReadReply(reply, allow).Success?
    ensures Kept(reply, allow) == |ReadReply(reply, allow).value.data|
  {
    var limit := CollectLimit(reply, allow);
    var n := KeptChunks(reply.chunks, limit);
    JoinGrows(reply.chunks, n);
    if n < |reply.chunks| {
      JoinGrows(reply.chunks, n + 1);
    }
    assert reply.chunks[..|reply.chunks|] == reply.chunks;
  }

  /** A 206 reply that declares more than was asked for, and of which more than that
      arrives within what it declares. */
  ghost predicate Oversized(reply: Reply, length: nat) {
    && PartialHeadersPass(reply)
    && var declared := reply.contentRange.value.end - reply.contentRange.value.start + 1;
       exists k :: 0 <= k <= |reply.chunks| && length < |Join(reply.chunks[..k])| <= declared
  }

  lemma {:induction false} PrefixGrows(chunks: seq<bytes>, j: nat, k: nat)
    requires j <= k <= |chunks|
    ensures |Join(chunks[..j])| <= |Join(chunks[..k])|
  {
    JoinGrows(chunks[..k], j);
    assert chunks[..k][..j] == chunks[..j];
  }

  /** More than was asked for is collected exactly from an oversized 206 reply: a full
      reply, where one is allowed, is cut off at the length asked for, and a partial one
      only at the length that it declares itself. */
  lemma KeptBeyondRequest(reply: Reply, allow: Option<nat>, length: nat)
    requires allow.Some? ==> allow.value <= length
    ensures Kept(reply, allow) > length <==> Oversized(reply, length)
  {
    var limit := CollectLimit(reply, allow);
    var n := KeptChunks(reply.chunks, limit);
    if PartialHeadersPass(reply) {
      forall k | 0 <= k <= |reply.chunks| && length < |Join(reply.chunks[..k])| <= limit
        ensures k <= n
      {
        if n < k {
          PrefixGrows(reply.chunks, n + 1, k);
        }
      }
      if k :| 0 <= k <= |reply.chunks| && length < |Join(reply.chunks[..k])| <= limit {
        PrefixGrows(reply.chunks, k, n);
      }
    }
  }

  /** A server answers a request for 30 bytes with a hundred: they are all collected, and
      only then refused. */
  lemma OversizedReplyIsCollected() returns (reply: Reply)
    ensures Kept(reply, None) == 100
    ensures ReadReply(reply, None).Success? && FetchExact(reply, 0, 29, 100) == Failure(WrongByteRange)
  {
    var body: bytes := seq(100, i => 0);
    reply := Reply(206, true, Absent, Some(ContentRange(0, 99, 100)), [body]);
    JoinOne(body);
    AcceptedIsKept(reply, None);
  }

  /** The last `length` bytes of the archive, or all of it if it is shorter. */
  function FetchSuffix(reply: Reply, length: nat): (result: Result<Body, Failure>)
    ensures result.Success? ==>
      && 0 < |result.value.data| <= result.value.total <= MAX_ARCHIVE_SIZE
      && |result.value.data| <= length
      && (result.value.full ==> |result.value.data| == result.value.total)
  {
    var body :- ReadReply(reply, Some(length));
    var expectedStart := if body.total > length then body.total - length else 0;
    if body.start != expectedStart || body.end != body.total - 1 then Failure(WrongSuffixRange)
    else Success(body)
  }

  /** The bytes `start..end` of an archive whose size is already known. */
  function FetchExact(reply: Reply, start: nat, end: nat, archiveSize: nat): (result: Result<bytes, Failure>)
    requires start <= end
    ensures result.Success? ==> |result.value| == end - start + 1
  {
    var body :- ReadReply(reply, None);
    if body.total != archiveSize || body.start != start || body.end != end then Failure(WrongByteRange)
    else Success(body.data)
  }

  // ------------------------------------------------------------- what is accepted

  /** The headers declare this many bytes, or do not say. */
  predicate Declares(reply: Reply, length: int) {
    reply.contentLength == Absent || reply.contentLength == Declared(length)
  }

  /** The bytes `start..end` of `total`, at most 32 GiB, sent as a partial reply. */
  predicate SendsPart(reply: Reply, start: nat, end: nat, total: nat, data: bytes) {
    && reply.identity && reply.status == 206 && reply.contentRange == Some(ContentRange(start, end, total))
    && start <= end < total <= 34_359_738_368
    && data == Join(reply.chunks) && |data| == end - start + 1 && Declares(reply, |data|)
  }

  /** The whole object, not empty and not longer than allowed, sent as a full reply. */
  predicate SendsAll(reply: Reply, allow: nat, data: bytes) {
    && reply.identity && reply.status == 200
    && data == Join(reply.chunks) && 0 < |data| <= allow && |data| <= 34_359_738_368 && Declares(reply, |data|)
  }

  /** Exactly these replies are accepted, and this is what is made of them. */
  lemma ReplyExact(reply: Reply, allow: Option<nat>, body: Body)
    ensures ReadReply(reply, allow) == Success(body) <==>
      if body.full then allow.Some? && SendsAll(reply, allow.value, body.data) && body == Body(body.data, 0, |body.data| - 1, |body.data|, true)
      else SendsPart(reply, body.start, body.end, body.total, body.data)
  {
  }

  /** A suffix is accepted exactly when it is the last `length` bytes, or all of a shorter object. */
  lemma SuffixExact(reply: Reply, length: nat, body: Body)
    ensures FetchSuffix(reply, length) == Success(body) <==>
      && body.end == body.total - 1 && body.start == (if body.total > length then body.total - length else 0)
      && if body.full then SendsAll(reply, length, body.data) && body.total == |body.data|
         else SendsPart(reply, body.start, body.end, body.total, body.data)
  {
    ReplyExact(reply, Some(length), body);
    hide ReadReply;
    hide SendsPart;
  }

  /** A range is accepted exactly when it is the one asked for, of an object of the known size. */
  lemma RangeExact(reply: Reply, start: nat, end: nat, archiveSize: nat, data: bytes)
    requires start <= end
    ensures FetchExact(reply, start, end, archiveSize) == Success(data) <==> SendsPart(reply, start, end, archiveSize, data)
  {
    var body := ReadReply(reply, None);
    if body.Success? {
      ReplyExact(reply, None, body.value);
    }
    ReplyExact(reply, None, Body(data, start, end, archiveSize, false));
    hide ReadReply;
    hide SendsPart;
  }

  // -------------------------------------------------------------- honest servers

  ghost predicate SaysPartial(reply: Reply, archive: bytes, start: nat, end: nat) {
    && start <= end < |archive|
    && reply.status == 206
    && reply.contentRange == Some(ContentRange(start, end, |archive|))
    && (reply.contentLength == Absent || reply.contentLength == Declared(end - start + 1))
    && Join(reply.chunks) == archive[start..end + 1]
  }

  ghost predicate SaysFull(reply: Reply, archive: bytes) {
    && reply.status == 200
    && (reply.contentLength == Absent || reply.contentLength == Declared(|archive|))
    && Join(reply.chunks) == archive
  }

  /** Either a correct 206, or the whole object when the suffix asked for covers it.
      A range that selects nothing may be answered in any way. */
  ghost predicate HonestReply(reply: Reply, range: Range, archive: bytes) {
    && reply.identity
    && match range {
      case SuffixOf(length) =>
        var start := if |archive| > length then |archive| - length else 0;
        || length == 0
        || (|archive| > 0 && SaysPartial(reply, archive, start, |archive| - 1))
        || (|archive| <= length && SaysFull(reply, archive))
      case Between(start, end) =>
        start <= end < |archive| ==> SaysPartial(reply, archive, start, end)
    }
  }

  /** The reply of a server that holds the archive and serves ranges. */
  function ReplyOf(archive: bytes, range: Range): Reply {
    var start := match range { case SuffixOf(n) => if |archive| > n then |archive| - n else 0 case Between(a, _) => a };
    var end: int := match range { case SuffixOf(_) => |archive| - 1 case Between(_, b) => b };
    if start <= end < |archive|
    then Reply(206, true, Absent, Some(ContentRange(start, end, |archive|)), [archive[start..end + 1]])
    else Reply(200, true, Absent, None, [archive])
  }

  lemma ReplyOfIsHonest(archive: bytes, range: Range)
    ensures HonestReply(ReplyOf(archive, range), range, archive)
  {
    var reply := ReplyOf(archive, range);
    JoinOne(reply.chunks[0]);
    assert reply.chunks == [reply.chunks[0]];
  }

  /** What an honest reply to the suffix request yields depends on the archive alone. */
  lemma HonestSuffix(reply: Reply, length: nat, archive: bytes)
    requires HonestReply(reply, SuffixOf(length), archive) && 0 < length <= MAX_ARCHIVE_SIZE
    ensures var result := FetchSuffix(reply, length);
      if |archive| == 0 then result == Failure(InvalidArchiveSize)
      else if |archive| > MAX_ARCHIVE_SIZE then result == Failure(InvalidContentRangeBounds)
      else
        && result.Success?
        && result.value.total == |archive|
        && result.value.data == archive[if |archive| > length then |archive| - length else 0..]
        && (result.value.full ==> result.value.data == archive)
  {
  }

  lemma HonestExact(reply: Reply, start: nat, end: nat, archive: bytes)
    requires start <= end < |archive| <= MAX_ARCHIVE_SIZE
    requires HonestReply(reply, Between(start, end), archive)
    ensures FetchExact(reply, start, end, |archive|) == Success(archive[start..end + 1])
  {
  }
}
