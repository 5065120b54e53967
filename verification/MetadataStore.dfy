/** Generated wheel metadata: content published before the record that points to it,
    and loads that read record and content at different times. */
module MetadataStore {
  import opened Wrappers
  import opened Text
  import opened TimedStore

  // ------------------------------------------------------------------- identities

  /** The storage identity of an artifact: its URL without fragment and query. */
  function Identity(url: string): string {
    var base := url[..Find(url, '#')];
    base[..Find(base, '?')]
  }

  /** Two URLs share an identity exactly when they differ in query and fragment only. */
  lemma IdentityIsThePath(path: string, rest: string)
    requires Avoids(path, {'#', '?'})
    ensures Identity(path + rest) == path <==> (rest == "" || rest[0] == '#' || rest[0] == '?')
    ensures Avoids(Identity(rest), {'#', '?'}) && Identity(Identity(rest)) == Identity(rest)
  {
    var url := path + rest;
    var cut := Find(url, '#');
    var base := url[..cut];
    var end := Find(base, '?');
    assert forall i :: 0 <= i < |path| ==> url[i] == path[i];
    assert |path| <= cut && |path| <= end;
    if rest != "" {
      assert url[|path|] == rest[0];
    }
  }

  predicate IsHex(s: string) {
    |s| == 64 && forall i :: 0 <= i < |s| ==> '0' <= s[i] <= '9' || 'a' <= s[i] <= 'f' || 'A' <= s[i] <= 'F'
  }

  /** The SHA-256 of a text, taken to be injective, or any other string in its place. */
  datatype Sha = Of(text: string) | Raw(hex: string)

  predicate IsDigest(d: Sha) {
    d.Of? || IsHex(d.hex)
  }

  datatype Key =
    | Content(digest: Sha)
    | Blob(identity: string, wheel: string)
    | Current(identity: string)

  datatype Value =
    | Plain(text: string)
    | Record(schema: int, metadata: Sha, wheel: Option<string>)
    | Malformed

  type Shared = Store<Key, Value>

  function ContentKey(digest: Sha): Key {
    Content(if digest.Raw? then Raw(Lower(digest.hex)) else digest)
  }

  function BlobKey(url: string, wheel: string): Key {
    Blob(Identity(url), Lower(wheel))
  }

  function CurrentKey(url: string): Key {
    Current(Identity(url))
  }

  // ----------------------------------------------------------------------- writers

  /** What one writer is asked to store. Older processes store a blob and a first-schema
      record only; they always know the wheel. */
  datatype Order = Order(url: string, text: string, wheel: Option<string>, legacy: bool)

  /** The checks before anything is written. */
  predicate Storable(o: Order) {
    (o.wheel.Some? ==> IsHex(Lower(o.wheel.value))) && (o.legacy ==> o.wheel.Some?)
  }

  function WheelOf(o: Order): Option<string> {
    if o.wheel.Some? then Some(Lower(o.wheel.value)) else None
  }

  function RecordOf(o: Order): Value {
    Record(if o.legacy then 1 else 2, Of(o.text), WheelOf(o))
  }

  /** The writes of a store, in the order they are awaited. */
  function StoreWrites(o: Order, ttl: int): (writes: seq<Write<Key, Value>>)
    ensures |writes| > 0
  {
    (if o.legacy then [] else [Write(ContentKey(Of(o.text)), ttl, Plain(o.text))])
    + (if o.wheel.Some? then [Write(BlobKey(o.url, o.wheel.value), ttl, Plain(o.text))] else [])
    + [Write(CurrentKey(o.url), ttl, RecordOf(o))]
  }

  // ----------------------------------------------------------------------- readers

  /** Whether a record may be followed at all by a reader expecting this wheel. */
  predicate Usable(record: Value, expected: Option<string>) {
    && record.Record? && IsDigest(record.metadata)
    && (record.wheel.Some? ==> IsHex(record.wheel.value))
    && (record.schema != 2 ==> record.wheel.Some?)
    && (expected.Some? ==> record.wheel == expected)
  }

  function TextAt(s: Shared, k: Key, now: real): Option<string> {
    var found: Option<Value> := Lookup(s, k, now);
    if found.Some? && found.value.Plain? then Some(found.value.text) else None
  }

  /** Only a body with the recorded digest is handed out. */
  predicate Matches(record: Value, text: string)
    requires record.Record?
  {
    Of(text) == record.metadata
  }

  // -------------------------------------------------------------------- transitions

  datatype Stage =
    | ReadingRecord
    | ReadingContent(record: Value)
    | ReadingBlob(record: Value)

  datatype Job =
    | Storing(order: Order, ttl: int, done: nat)
    | Loading(url: string, expected: Option<string>, stage: Stage)

  /** What a load returned; the digest handed out with the text is `Of(text)`. */
  datatype Answer = Answer(identity: string, expected: Option<string>, wheel: Option<string>, text: string)

  /** The last three are history: every entry that a store wrote, the orders whose
      record was written, and the pairs handed out. */
  datatype State = State(
    store: Shared, now: real, jobs: map<nat, Job>,
    written: set<(Key, Value)>, published: set<(string, string, Option<string>)>, answers: set<Answer>)

  const INITIAL := State(map[], 0.0, map[], {}, {}, {})

  datatype Step =
    | Tick(to: real)
    | Evict(key: Key)
    | Damage(key: Key, entry: Entry<Value>)
    | Abandon(job: nat)
    | StartStore(job: nat, order: Order, ttl: int)
    | WriteNext(job: nat)
    | StartLoad(job: nat, url: string, expected: Option<string>)
    | ReadNext(job: nat)

  predicate Enabled(s: State, step: Step) {
    match step
    case Tick(to) => s.now <= to
    case Evict(_) => true
    // contents and blobs may become any text, records anything that cannot be read or
    // that points to no text at all
    case Damage(key, entry) =>
      if key.Current? then entry.value.Malformed? || (entry.value.Record? && entry.value.metadata.Raw?) else entry.value.Plain?
    case Abandon(job) => job in s.jobs
    case StartStore(job, order, _) => job !in s.jobs && Storable(order)
    case WriteNext(job) => job in s.jobs && s.jobs[job].Storing? && s.jobs[job].done < |StoreWrites(s.jobs[job].order, s.jobs[job].ttl)|
    case StartLoad(job, _, _) => job !in s.jobs
    case ReadNext(job) => job in s.jobs && s.jobs[job].Loading?
  }

  function Published(o: Order): (string, string, Option<string>) {
    (Identity(o.url), o.text, WheelOf(o))
  }

  function Stored(s: State, job: nat, j: Job): State
    requires j.Storing? && j.done < |StoreWrites(j.order, j.ttl)|
  {
    var writes := StoreWrites(j.order, j.ttl);
    var last := j.done == |writes| - 1;
    s.(store := Put(s.store, s.now, writes[j.done]),
       written := s.written + {(writes[j.done].key, writes[j.done].value)},
       published := if last then s.published + {Published(j.order)} else s.published,
       jobs := if last then s.jobs - {job} else s.jobs[job := j.(done := j.done + 1)])
  }

  /** A reader has a body, or not, for the record it read. */
  function Finished(s: State, job: nat, j: Job, record: Value, found: Option<string>): State
    requires j.Loading? && record.Record?
  {
    s.(jobs := s.jobs - {job},
       answers := if found.Some? && Matches(record, found.value)
                  then s.answers + {Answer(Identity(j.url), j.expected, record.wheel, found.value)} else s.answers)
  }

  function Loaded(s: State, job: nat, j: Job): State
    requires j.Loading?
  {
    match j.stage
    case ReadingRecord =>
      var found: Option<Value> := Lookup(s.store, CurrentKey(j.url), s.now);
      if found.None? || !Usable(found.value, j.expected) then s.(jobs := s.jobs - {job})
      else
        var record := found.value;
        var next := if record.schema == 2 then ReadingContent(record) else ReadingBlob(record);
        s.(jobs := s.jobs[job := j.(stage := next)])
    case ReadingContent(record) =>
      if !record.Record? then s.(jobs := s.jobs - {job})
      else
        var found := TextAt(s.store, ContentKey(record.metadata), s.now);
        if found.None? && record.wheel.Some? then s.(jobs := s.jobs[job := j.(stage := ReadingBlob(record))])
        else Finished(s, job, j, record, found)
    case ReadingBlob(record) =>
      if !record.Record? || record.wheel.None? then s.(jobs := s.jobs - {job})
      else Finished(s, job, j, record, TextAt(s.store, BlobKey(j.url, record.wheel.value), s.now))
  }

  function Apply(s: State, step: Step): State
    requires Enabled(s, step)
  {
    match step
    case Tick(to) => s.(now := to)
    case Evict(key) => s.(store := s.store - {key})
    case Damage(key, entry) => s.(store := s.store[key := entry])
    case Abandon(job) => s.(jobs := s.jobs - {job})
    case StartStore(job, order, ttl) => s.(jobs := s.jobs[job := Storing(order, ttl, 0)])
    case WriteNext(job) => Stored(s, job, s.jobs[job])
    case StartLoad(job, url, expected) => s.(jobs := s.jobs[job := Loading(url, expected, ReadingRecord)])
    case ReadNext(job) => Loaded(s, job, s.jobs[job])
  }

  ghost predicate Run(s: State, steps: seq<Step>, end: State)
    decreases |steps|
  {
    if steps == [] then end == s
    else Enabled(s, steps[0]) && Run(Apply(s, steps[0]), steps[1..], end)
  }

  // --------------------------------------------------------------------- invariants

  /** A record under an identity was published for that identity. */
  ghost predicate Honest(published: set<(string, string, Option<string>)>, identity: string, record: Value) {
    record.Record? && record.metadata.Of? ==> (identity, record.metadata.text, record.wheel) in published
  }

  ghost predicate RecordsHonest(s: State) {
    forall k :: k in s.store && k.Current? ==> Honest(s.published, k.identity, s.store[k].value)
  }

  /** What a record points to was written before it. */
  ghost predicate ContentFirst(written: set<(Key, Value)>, identity: string, record: Value) {
    record.Record? && record.metadata.Of? ==>
      var body := Plain(record.metadata.text);
      if record.schema == 2 then (ContentKey(record.metadata), body) in written
      else record.wheel.Some? && (Blob(identity, record.wheel.value), body) in written
  }

  ghost predicate RecordsFollowContent(s: State) {
    forall k :: k in s.store && k.Current? ==> ContentFirst(s.written, k.identity, s.store[k].value)
  }

  ghost predicate WroteFirst(written: set<(Key, Value)>, writes: seq<Write<Key, Value>>, n: int) {
    forall i :: 0 <= i < n && i < |writes| ==> (writes[i].key, writes[i].value) in written
  }

  ghost predicate StoresInOrder(s: State) {
    forall job :: job in s.jobs && s.jobs[job].Storing? ==>
      Storable(s.jobs[job].order) && WroteFirst(s.written, StoreWrites(s.jobs[job].order, s.jobs[job].ttl), s.jobs[job].done)
  }

  ghost predicate JobHonest(s: State, j: Job) {
    j.Loading? && !j.stage.ReadingRecord? ==>
      Honest(s.published, Identity(j.url), j.stage.record) && Usable(j.stage.record, j.expected)
  }

  ghost predicate JobsHonest(s: State) {
    forall job :: job in s.jobs ==> JobHonest(s, s.jobs[job])
  }

  ghost predicate AnswersHonest(s: State) {
    forall a :: a in s.answers ==>
      (a.identity, a.text, a.wheel) in s.published && (a.expected.Some? ==> a.wheel == a.expected)
  }

  ghost predicate Inv(s: State) {
    RecordsHonest(s) && JobsHonest(s) && AnswersHonest(s) && RecordsFollowContent(s) && StoresInOrder(s)
  }

  lemma RecordIsLast(o: Order, ttl: int, i: nat, written: set<(Key, Value)>)
    requires Storable(o) && i < |StoreWrites(o, ttl)|
    ensures var writes := StoreWrites(o, ttl);
      && (writes[i].key.Current? <==> i == |writes| - 1)
      && (writes[i].key.Current? ==> writes[i].key == CurrentKey(o.url) && writes[i].value == RecordOf(o))
      && (i == |writes| - 1 && WroteFirst(written, writes, i) ==> ContentFirst(written, Identity(o.url), RecordOf(o)))
  {
    hide Identity;
    assert WroteFirst(written, StoreWrites(o, ttl), i) && i > 0 ==>
      (StoreWrites(o, ttl)[0].key, StoreWrites(o, ttl)[0].value) in written;
  }

  lemma StoreKeepsInv(s: State, job: nat)
    requires Inv(s) && Enabled(s, WriteNext(job))
    ensures Inv(Apply(s, WriteNext(job)))
  {
    var j := s.jobs[job];
    RecordIsLast(j.order, j.ttl, j.done, s.written);
    hide StoreWrites;
    hide Identity;
  }

  lemma LoadKeepsInv(s: State, job: nat)
    requires Inv(s) && Enabled(s, ReadNext(job))
    ensures Inv(Apply(s, ReadNext(job)))
  {
    assert JobHonest(s, s.jobs[job]);
    hide Identity;
  }

  lemma InvPreserved(s: State, step: Step)
    requires Inv(s) && Enabled(s, step)
    ensures Inv(Apply(s, step))
  {
    match step {
      case WriteNext(job) => StoreKeepsInv(s, job);
      case ReadNext(job) => LoadKeepsInv(s, job);
      case _ =>
    }
  }

  lemma {:induction false} RunKeepsInv(s: State, steps: seq<Step>, end: State)
    requires Inv(s) && Run(s, steps, end)
    ensures Inv(end)
    decreases |steps|
  {
    if steps != [] {
      InvPreserved(s, steps[0]);
      RunKeepsInv(Apply(s, steps[0]), steps[1..], end);
    }
  }

  /** No torn reads: over every interleaving of stores, loads, losses and damage, a pair
      that a load hands out was published for that identity, and with the wheel hash
      that the reader asked for. */
  lemma LoadsAreNeverTorn(steps: seq<Step>, end: State, a: Answer)
    requires Run(INITIAL, steps, end) && a in end.answers
    ensures (a.identity, a.text, a.wheel) in end.published
    ensures a.expected.Some? ==> a.wheel == a.expected
  {
    RunKeepsInv(INITIAL, steps, end);
  }

  /** A record is never seen before the body it points to has been written. */
  lemma ContentIsWrittenFirst(steps: seq<Step>, end: State, identity: string)
    requires Run(INITIAL, steps, end) && Current(identity) in end.store && end.store[Current(identity)].value.Record?
    ensures ContentFirst(end.written, identity, end.store[Current(identity)].value)
  {
    RunKeepsInv(INITIAL, steps, end);
  }

  // ------------------------------------------------- an undisturbed store and load

  /** The first `n` writes of an order are in place until the deadline. */
  ghost predicate Held(store: Shared, writes: seq<Write<Key, Value>>, n: int, deadline: real) {
    forall i :: 0 <= i < n && i < |writes| ==>
      writes[i].key in store && store[writes[i].key].value == writes[i].value && store[writes[i].key].exp >= deadline
  }

  ghost predicate Spares(key: Key, writes: seq<Write<Key, Value>>) {
    forall i :: 0 <= i < |writes| ==> writes[i].key != key
  }

  /** A step that leaves the order's entries alone and is not about another job of the same name. */
  ghost predicate Peaceful(s: State, step: Step, job: nat, writes: seq<Write<Key, Value>>)
    requires Enabled(s, step)
  {
    match step
    case Tick(_) => true
    case Evict(key) => Spares(key, writes)
    case Damage(key, _) => Spares(key, writes)
    case WriteNext(other) =>
      other != job ==> Spares(StoreWrites(s.jobs[other].order, s.jobs[other].ttl)[s.jobs[other].done].key, writes)
    case ReadNext(_) => true
    case _ => step.job != job
  }

  ghost predicate PeacefulRun(s: State, steps: seq<Step>, end: State, job: nat, writes: seq<Write<Key, Value>>)
    decreases |steps|
  {
    if steps == [] then end == s
    else
      Enabled(s, steps[0]) && Peaceful(s, steps[0], job, writes)
      && PeacefulRun(Apply(s, steps[0]), steps[1..], end, job, writes)
  }

  /** A store has done so far exactly what it says, or is complete. */
  ghost predicate StoreOnTrack(s: State, job: nat, o: Order, ttl: int, deadline: real) {
    var writes := StoreWrites(o, ttl);
    if job in s.jobs then
      && s.jobs[job].Storing? && s.jobs[job].order == o && s.jobs[job].ttl == ttl
      && Held(s.store, writes, s.jobs[job].done, deadline)
    else Held(s.store, writes, |writes|, deadline)
  }

  lemma KeysDiffer(o: Order, ttl: int)
    ensures var writes := StoreWrites(o, ttl);
      forall i, k :: 0 <= i < k < |writes| ==> writes[i].key != writes[k].key
    ensures forall w <- StoreWrites(o, ttl) :: w.ttl == ttl
  {
    hide Identity;
  }

  lemma StoreStaysOnTrack(s: State, step: Step, job: nat, o: Order, ttl: int, deadline: real)
    requires Enabled(s, step) && Peaceful(s, step, job, StoreWrites(o, ttl))
    requires StoreOnTrack(s, job, o, ttl, deadline) && deadline <= s.now + ttl as real
    ensures StoreOnTrack(Apply(s, step), job, o, ttl, deadline)
  {
    KeysDiffer(o, ttl);
    hide Identity;
    hide StoreWrites;
    if step == WriteNext(job) {
      var writes, n := StoreWrites(o, ttl), s.jobs[job].done;
      assert writes[n] in writes;
      assert Held(Put(s.store, s.now, writes[n]), writes, n + 1, deadline);
    }
  }

  lemma {:induction false} PeacefulStore(s: State, steps: seq<Step>, end: State, job: nat, o: Order, ttl: int, deadline: real)
    requires PeacefulRun(s, steps, end, job, StoreWrites(o, ttl))
    requires StoreOnTrack(s, job, o, ttl, deadline) && deadline <= s.now + ttl as real
    ensures StoreOnTrack(end, job, o, ttl, deadline)
    decreases |steps|
  {
    hide StoreOnTrack;
    if steps != [] {
      StoreStaysOnTrack(s, steps[0], job, o, ttl, deadline);
      PeacefulStore(Apply(s, steps[0]), steps[1..], end, job, o, ttl, deadline);
    }
  }

  function Served(o: Order, url: string, expected: Option<string>): Answer {
    Answer(Identity(url), expected, WheelOf(o), o.text)
  }

  /** A load has so far seen only what the order wrote, or has handed it out. */
  ghost predicate LoadOnTrack(s: State, job: nat, o: Order, url: string, expected: Option<string>) {
    if job !in s.jobs then Served(o, url, expected) in s.answers
    else
      && s.jobs[job].Loading? && s.jobs[job].url == url && s.jobs[job].expected == expected
      && (s.jobs[job].stage.ReadingContent? ==> s.jobs[job].stage.record == RecordOf(o) && !o.legacy)
      && (s.jobs[job].stage.ReadingBlob? ==> s.jobs[job].stage.record == RecordOf(o) && o.legacy)
  }

  lemma ReadStaysOnTrack(s: State, job: nat, o: Order, ttl: int, url: string, expected: Option<string>, deadline: real)
    requires Enabled(s, ReadNext(job)) && Storable(o) && Identity(url) == Identity(o.url)
    requires expected.None? || expected == WheelOf(o)
    requires LoadOnTrack(s, job, o, url, expected) && s.now < deadline
    requires Held(s.store, StoreWrites(o, ttl), |StoreWrites(o, ttl)|, deadline)
    ensures LoadOnTrack(Apply(s, ReadNext(job)), job, o, url, expected)
  {
    var writes := StoreWrites(o, ttl);
    assert o.wheel.Some? ==> Lower(Lower(o.wheel.value)) == Lower(o.wheel.value);
    assert writes[|writes| - 1].key == CurrentKey(url);
    assert writes[0].key == if o.legacy then BlobKey(url, o.wheel.value) else ContentKey(Of(o.text));
    hide Identity;
    hide Lower;
  }

  lemma PeaceKeepsHeld(s: State, step: Step, job: nat, writes: seq<Write<Key, Value>>, deadline: real)
    requires Enabled(s, step) && Peaceful(s, step, job, writes) && (job in s.jobs ==> s.jobs[job].Loading?)
    requires Held(s.store, writes, |writes|, deadline)
    ensures Held(Apply(s, step).store, writes, |writes|, deadline)
  {
    hide StoreWrites;
  }

  lemma {:induction false} TimeGoesOn(s: State, steps: seq<Step>, end: State, job: nat, writes: seq<Write<Key, Value>>)
    requires PeacefulRun(s, steps, end, job, writes)
    ensures s.now <= end.now
    decreases |steps|
  {
    if steps != [] {
      TimeGoesOn(Apply(s, steps[0]), steps[1..], end, job, writes);
    }
  }

  lemma {:induction false} PeacefulLoad(s: State, steps: seq<Step>, end: State, job: nat, o: Order, ttl: int,
                                         url: string, expected: Option<string>, deadline: real)
    requires PeacefulRun(s, steps, end, job, StoreWrites(o, ttl)) && Storable(o) && Identity(url) == Identity(o.url)
    requires expected.None? || expected == WheelOf(o)
    requires LoadOnTrack(s, job, o, url, expected) && end.now < deadline
    requires Held(s.store, StoreWrites(o, ttl), |StoreWrites(o, ttl)|, deadline)
    ensures LoadOnTrack(end, job, o, url, expected)
    decreases |steps|
  {
    if steps != [] {
      var next := Apply(s, steps[0]);
      TimeGoesOn(s, steps, end, job, StoreWrites(o, ttl));
      PeaceKeepsHeld(s, steps[0], job, StoreWrites(o, ttl), deadline);
      if steps[0] == ReadNext(job) {
        ReadStaysOnTrack(s, job, o, ttl, url, expected, deadline);
      } else {
        OthersKeepLoad(s, steps[0], job, o, ttl, url, expected);
      }
      hide LoadOnTrack;
      hide Held;
      hide StoreWrites;
      PeacefulLoad(next, steps[1..], end, job, o, ttl, url, expected, deadline);
    }
  }

  lemma OthersKeepLoad(s: State, step: Step, job: nat, o: Order, ttl: int, url: string, expected: Option<string>)
    requires Enabled(s, step) && Peaceful(s, step, job, StoreWrites(o, ttl)) && step != ReadNext(job)
    requires LoadOnTrack(s, job, o, url, expected)
    ensures LoadOnTrack(Apply(s, step), job, o, url, expected)
  {
    hide Identity;
    hide StoreWrites;
  }

  /** A store that nobody disturbs, then a load that nobody disturbs, before the first
      of the entries expires: the load hands out exactly what was stored. Other jobs may
      do what they like with other entries all the while. */
  lemma StoreThenLoad(s: State, writer: nat, o: Order, ttl: int, storing: seq<Step>, mid: State,
                      reader: nat, url: string, expected: Option<string>, loading: seq<Step>, end: State)
    requires Enabled(s, StartStore(writer, o, ttl))
    requires PeacefulRun(Apply(s, StartStore(writer, o, ttl)), storing, mid, writer, StoreWrites(o, ttl)) && writer !in mid.jobs
    requires Enabled(mid, StartLoad(reader, url, expected)) && Identity(url) == Identity(o.url)
    requires PeacefulRun(Apply(mid, StartLoad(reader, url, expected)), loading, end, reader, StoreWrites(o, ttl)) && reader !in end.jobs
    requires end.now < s.now + ttl as real && (expected.None? || expected == WheelOf(o))
    ensures Served(o, url, expected) in end.answers
  {
    var deadline := s.now + ttl as real;
    var s', mid' := Apply(s, StartStore(writer, o, ttl)), Apply(mid, StartLoad(reader, url, expected));
    hide PeacefulRun;
    hide StoreWrites;
    assert StoreOnTrack(s', writer, o, ttl, deadline);
    PeacefulStore(s', storing, mid, writer, o, ttl, deadline);
    assert LoadOnTrack(mid', reader, o, url, expected);
    PeacefulLoad(mid', loading, end, reader, o, ttl, url, expected, deadline);
  }

  // ------------------------------------------------------------------- a lost content

  /** What a load needs besides the content: the blob of a known wheel, and the record. */
  function Spare(o: Order, ttl: int): seq<Write<Key, Value>>
    requires !o.legacy && o.wheel.Some?
  {
    [Write(BlobKey(o.url, o.wheel.value), ttl, Plain(o.text)), Write(CurrentKey(o.url), ttl, RecordOf(o))]
  }

  /** The content entry is lost, or it is what it should be. */
  ghost predicate ContentSound(store: Shared, text: string) {
    ContentKey(Of(text)) in store ==> store[ContentKey(Of(text))].value == Plain(text)
  }

  ghost predicate DamagesNone(steps: seq<Step>, key: Key) {
    forall i :: 0 <= i < |steps| && steps[i].Damage? ==> steps[i].key != key
  }

  /** A load follows the order's record, and has handed its text out when it is done. */
  ghost predicate LoadFollows(s: State, job: nat, o: Order, url: string, expected: Option<string>) {
    if job !in s.jobs then Served(o, url, expected) in s.answers
    else
      && s.jobs[job].Loading? && s.jobs[job].url == url && s.jobs[job].expected == expected
      && (!s.jobs[job].stage.ReadingRecord? ==> s.jobs[job].stage.record == RecordOf(o))
  }

  lemma ContentStaysSound(s: State, step: Step, text: string)
    requires Enabled(s, step) && ContentSound(s.store, text) && DamagesNone([step], ContentKey(Of(text)))
    ensures ContentSound(Apply(s, step).store, text)
  {
    assert [step][0] == step;
    hide Identity;
    hide Lower;
  }

  lemma ReadFollows(s: State, job: nat, o: Order, ttl: int, url: string, expected: Option<string>, deadline: real)
    requires Enabled(s, ReadNext(job)) && Storable(o) && !o.legacy && o.wheel.Some? && Identity(url) == Identity(o.url)
    requires expected.None? || expected == WheelOf(o)
    requires LoadFollows(s, job, o, url, expected) && s.now < deadline && ContentSound(s.store, o.text)
    requires Held(s.store, Spare(o, ttl), 2, deadline)
    ensures LoadFollows(Apply(s, ReadNext(job)), job, o, url, expected)
  {
    var spare := Spare(o, ttl);
    assert Lower(Lower(o.wheel.value)) == Lower(o.wheel.value);
    assert spare[0].key == BlobKey(url, o.wheel.value) && spare[1].key == CurrentKey(url);
    hide Identity;
    hide Lower;
  }

  lemma OthersFollow(s: State, step: Step, job: nat, o: Order, ttl: int, url: string, expected: Option<string>)
    requires !o.legacy && o.wheel.Some? && Enabled(s, step) && Peaceful(s, step, job, Spare(o, ttl)) && step != ReadNext(job)
    requires LoadFollows(s, job, o, url, expected)
    ensures LoadFollows(Apply(s, step), job, o, url, expected)
  {
    hide Identity;
    hide StoreWrites;
    hide Spare;
  }

  lemma {:induction false} LoadGoesOn(s: State, steps: seq<Step>, end: State, job: nat, o: Order, ttl: int,
                                       url: string, expected: Option<string>, deadline: real)
    requires Storable(o) && !o.legacy && o.wheel.Some? && Identity(url) == Identity(o.url)
    requires PeacefulRun(s, steps, end, job, Spare(o, ttl)) && DamagesNone(steps, ContentKey(Of(o.text)))
    requires expected.None? || expected == WheelOf(o)
    requires LoadFollows(s, job, o, url, expected) && end.now < deadline && ContentSound(s.store, o.text)
    requires Held(s.store, Spare(o, ttl), 2, deadline)
    ensures LoadFollows(end, job, o, url, expected)
    decreases |steps|
  {
    if steps != [] {
      var next, spare := Apply(s, steps[0]), Spare(o, ttl);
      TimeGoesOn(s, steps, end, job, spare);
      PeaceKeepsHeld(s, steps[0], job, spare, deadline);
      ContentStaysSound(s, steps[0], o.text);
      if steps[0] == ReadNext(job) {
        ReadFollows(s, job, o, ttl, url, expected, deadline);
      } else {
        OthersFollow(s, steps[0], job, o, ttl, url, expected);
      }
      assert DamagesNone(steps[1..], ContentKey(Of(o.text)));
      hide LoadFollows;
      hide Held;
      hide Spare;
      hide ContentSound;
      hide DamagesNone;
      LoadGoesOn(next, steps[1..], end, job, o, ttl, url, expected, deadline);
    }
  }

  /** After an undisturbed store with a wheel hash, the content entry may be lost at any
      moment of a load, before or after the record was read: the blob makes it good. */
  lemma LostContentIsMadeGood(s: State, writer: nat, o: Order, ttl: int, storing: seq<Step>, mid: State,
                              reader: nat, url: string, expected: Option<string>, loading: seq<Step>, end: State)
    requires Enabled(s, StartStore(writer, o, ttl)) && !o.legacy && o.wheel.Some?
    requires PeacefulRun(Apply(s, StartStore(writer, o, ttl)), storing, mid, writer, StoreWrites(o, ttl)) && writer !in mid.jobs
    requires Enabled(mid, StartLoad(reader, url, expected)) && Identity(url) == Identity(o.url)
    requires PeacefulRun(Apply(mid, StartLoad(reader, url, expected)), loading, end, reader, Spare(o, ttl)) && reader !in end.jobs
    requires DamagesNone(loading, ContentKey(Of(o.text)))
    requires end.now < s.now + ttl as real && (expected.None? || expected == WheelOf(o))
    ensures Served(o, url, expected) in end.answers
  {
    var deadline := s.now + ttl as real;
    var s', mid' := Apply(s, StartStore(writer, o, ttl)), Apply(mid, StartLoad(reader, url, expected));
    hide PeacefulRun;
    hide Identity;
    assert StoreOnTrack(s', writer, o, ttl, deadline);
    PeacefulStore(s', storing, mid, writer, o, ttl, deadline);
    var writes, spare := StoreWrites(o, ttl), Spare(o, ttl);
    assert writes[0] == Write(ContentKey(Of(o.text)), ttl, Plain(o.text)) && writes[1] == spare[0] && writes[2] == spare[1];
    assert Held(mid.store, spare, 2, deadline);
    assert ContentSound(mid.store, o.text);
    assert LoadFollows(mid', reader, o, url, expected);
    hide Spare;
    hide StoreWrites;
    LoadGoesOn(mid', loading, end, reader, o, ttl, url, expected, deadline);
  }

  // -------------------------------------------------------------------------- each read

  /** What each read of a load comes to. The record has to be readable, with digests, of the
      expected wheel, and if it is of the first schema with a wheel; then the content is read,
      or the blob of the first schema; a content that is lost is looked for as a blob; and a
      text is handed out exactly when it has the recorded digest. */
  lemma ReadsExactly(s: State, job: nat)
    requires Enabled(s, ReadNext(job))
    ensures var j, s' := s.jobs[job], Apply(s, ReadNext(job));
      match j.stage {
        case ReadingRecord =>
          var found: Option<Value> := Lookup(s.store, Current(Identity(j.url)), s.now);
          && s'.answers == s.answers
          && if found.None? || !found.value.Record? then job !in s'.jobs
             else
               var r := found.value;
               if (r.metadata.Of? || IsHex(r.metadata.hex)) && (r.wheel.Some? ==> IsHex(r.wheel.value))
                  && (r.schema == 2 || r.wheel.Some?) && (j.expected.None? || r.wheel == j.expected)
               then job in s'.jobs && s'.jobs[job] == j.(stage := if r.schema == 2 then ReadingContent(r) else ReadingBlob(r))
               else job !in s'.jobs
        case ReadingContent(r) =>
          r.Record? ==>
            var text := TextAt(s.store, ContentKey(r.metadata), s.now);
            if text.None? && r.wheel.Some? then s'.jobs == s.jobs[job := j.(stage := ReadingBlob(r))] && s'.answers == s.answers
            else job !in s'.jobs && s'.answers == HandedOut(s.answers, j, r, text)
        case ReadingBlob(r) =>
          r.Record? && r.wheel.Some? ==>
            job !in s'.jobs
            && s'.answers == HandedOut(s.answers, j, r, TextAt(s.store, Blob(Identity(j.url), Lower(r.wheel.value)), s.now))
      }
  {
    hide Identity;
    hide Lower;
  }

  function HandedOut(answers: set<Answer>, j: Job, r: Value, text: Option<string>): set<Answer>
    requires j.Loading? && r.Record?
  {
    if text.Some? && r.metadata == Of(text.value) then answers + {Answer(Identity(j.url), j.expected, r.wheel, text.value)} else answers
  }

  /** A store writes the content under its digest, with a known wheel the blob as well, and
      the record last; an older process writes blob and record only. */
  lemma WritesExactly(o: Order, ttl: int)
    ensures var content := Write(Content(Of(o.text)), ttl, Plain(o.text));
      var current := Current(Identity(o.url));
      StoreWrites(o, ttl) == match o.wheel
        case None => if o.legacy then [Write(current, ttl, Record(1, Of(o.text), None))]
                     else [content, Write(current, ttl, Record(2, Of(o.text), None))]
        case Some(wheel) =>
          var blob := Write(Blob(Identity(o.url), Lower(wheel)), ttl, Plain(o.text));
          if o.legacy then [blob, Write(current, ttl, Record(1, Of(o.text), Some(Lower(wheel))))]
          else [content, blob, Write(current, ttl, Record(2, Of(o.text), Some(Lower(wheel))))]
    ensures o.wheel.None? && !o.legacy ==> Storable(o)
  {
    hide Identity;
    hide Lower;
  }
}
