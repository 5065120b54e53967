/** Fills, revalidations, conversions and background enrichment racing on the keys
    of shared projects, over every interleaving of any number of jobs and replicas. */
module Enrichment {
  import opened Wrappers
  import opened TimedStore
  import opened ProjectKeys

  /** Bodies and validators are text; markers are digests. SHA-256 is taken to be injective. */
  datatype Value = Text(text: string) | Digest(of: string)

  type Shared = Store<Key, Value>

  // ---------------------------------------------------------------- history of copies

  /** A remaining lifetime: when it was sampled, the expiry it was sampled from, the whole
      seconds that came of it and how they were rounded. `seen` remembers, for the theorems
      only, how much had been written by then. */
  datatype Sample = Sample(at: real, exp: real, ttl: int, rounding: Rounding, seen: nat)

  /** What rounding added to the remaining lifetime, or took from it. */
  function Excess(x: Sample): real {
    x.ttl as real - (x.exp - x.at)
  }

  ghost predicate TrueSample(x: Sample) {
    x.ttl > 0 && x.ttl == Whole(x.exp - x.at, x.rounding)
  }

  /** Rounding adds at most its slack, and anything at all exactly when it rounds up. */
  lemma ExcessOfTrueSample(x: Sample)
    requires TrueSample(x)
    ensures Excess(x) <= Slack(x.rounding)
    ensures Excess(x) > 0.0 <==> RoundsUp(x.exp - x.at, x.rounding)
  {
    WholeExceeds(x.exp - x.at, x.rounding);
  }

  /** What a write to a body came of. An enrichment writes the copy it is bound to with
      that copy's lifetime, a conversion writes both copies with their sources' lifetimes. */
  datatype Cause =
    | Fetched
    | Revalidated
    | Enriched(from: string, bound: Key, sample: Sample)
    | Converted(source: string, sample: Sample, staleSample: Option<Sample>)

  /** One write to a current or stale body. */
  datatype CopyWrite = CopyWrite(key: Key, cause: Cause, value: string, at: real, exp: real)

  predicate IsCopy(k: Key) {
    k.Body? || k.Stale?
  }

  /** Index of the last write to a key, or -1. */
  function LastIndex(log: seq<CopyWrite>, k: Key): (i: int)
    ensures -1 <= i < |log|
    ensures i >= 0 ==> log[i].key == k
    ensures forall j :: i < j < |log| ==> log[j].key != k
  {
    if log == [] then -1
    else if log[|log| - 1].key == k then |log| - 1
    else LastIndex(log[..|log| - 1], k)
  }

  lemma LastIndexIs(log: seq<CopyWrite>, k: Key, i: nat)
    requires i < |log| && log[i].key == k && forall j :: i < j < |log| ==> log[j].key != k
    ensures LastIndex(log, k) == i
  {
  }

  function Latest(log: seq<CopyWrite>, k: Key): Option<CopyWrite> {
    if LastIndex(log, k) < 0 then None else Some(log[LastIndex(log, k)])
  }

  /** The last write to a copy left this text in it. */
  predicate Holds(log: seq<CopyWrite>, k: Key, text: string) {
    var latest := Latest(log, k);
    latest.Some? && latest.value.value == text
  }

  // ------------------------------------------------------------------------ the jobs

  datatype Bound = Current | StaleOnly

  datatype CommitStage =
    | Reading
    | Sampling(bound: Bound)
    | Writing(bound: Bound, sample: Sample)

  datatype ConvertStage =
    | SamplingSource
    | SamplingStale(sample: Sample)
    | Publishing(sample: Sample, staleSample: Option<Sample>)

  datatype RevalidateStage =
    | Restoring
    | Republishing
    | Refreshing(ttl: int)

  /** The local variables of work in flight, at the await it stands at. `since` remembers,
      for the theorems only, how much had been written when the stale body was read. */
  datatype Job =
    | Committing(project: string, json: bool, body: string, completed: string, changed: bool, ready: bool,
                 commitStage: CommitStage)
    | Converting(project: string, json: bool, source: string, target: string, convertStage: ConvertStage)
    | Revalidating(project: string, json: bool, body: string, other: Option<string>, since: nat,
                   revalidateStage: RevalidateStage)

  /** `left` remembers every body that a commit has published or confirmed, `completed`
      those of them whose commit was a ready one. */
  datatype State = State(
    store: Shared, now: real, jobs: map<nat, Job>,
    left: set<(string, bool, string)>, completed: set<(string, bool, string)>, log: seq<CopyWrite>)

  const INITIAL := State(map[], 0.0, map[], {}, {}, [])

  /** What a 304 does when only the other format's stale body is left. */
  datatype Choice = PassThrough | ConvertTo(target: string)

  datatype Step =
    | Tick(to: real)
    | Evict(key: Key)
    | Abandon(job: nat)
    | Fill(project: string, bodies: seq<(bool, string)>, ttl: int, staleTtl: int, validators: seq<Write<Key, Value>>)
    | Miss(project: string, ttl: int)
    | StartCommit(job: nat, project: string, json: bool, body: string, completed: string, changed: bool, ready: bool)
    | ReadForCommit(job: nat)
    | SampleForCommit(job: nat, rounding: Rounding)
    | WriteCommit(job: nat, staleTtl: int)
    | StartConversion(job: nat, project: string, json: bool, target: string)
    | SampleSource(job: nat, rounding: Rounding)
    | SampleSourceStale(job: nat, rounding: Rounding)
    | PublishConversion(job: nat)
    | StartRevalidation(job: nat, project: string, json: bool, choice: Choice)
    | RestoreStale(job: nat, staleTtl: int)
    | Republish(job: nat, ttl: int, validators: seq<Write<Key, Value>>)
    | RefreshReady(job: nat, staleTtl: int)

  predicate IsValidator(w: Write<Key, Value>, project: string) {
    (w.key == ETag(project) || w.key == LastModified(project)) && w.value.Text?
  }

  predicate Validators(writes: seq<Write<Key, Value>>, project: string) {
    forall i :: 0 <= i < |writes| ==> IsValidator(writes[i], project)
  }

  function Max(a: int, b: int): int {
    if a > b then a else b
  }

  function TextAt(s: State, k: Key): Option<string> {
    var found: Option<Value> := Lookup(s.store, k, s.now);
    if found.Some? && found.value.Text? then Some(found.value.text) else None
  }

  /** One sampling of a key's lifetime. */
  function SampleOf(s: State, k: Key, rounding: Rounding): (sample: Option<Sample>)
    ensures sample.Some? ==> TrueSample(sample.value) && sample.value.at == s.now && sample.value.seen == |s.log|
    ensures sample.Some? ==> k in s.store && sample.value.exp == s.store[k].exp && sample.value.rounding == rounding
  {
    match Ttl(s.store, k, s.now, rounding)
    case Some(ttl) => Some(Sample(s.now, s.store[k].exp, ttl, rounding, |s.log|))
    case None => None
  }

  // ------------------------------------------------------------------- what jobs write

  function BoundKey(j: Job, bound: Bound): Key {
    if bound.Current? then Body(j.project, j.json) else Stale(j.project, j.json)
  }

  /** The expectations of an enrichment commit. */
  function CommitExpected(j: Job, bound: Bound): seq<(Key, Option<Value>)>
    requires j.Committing?
  {
    match bound
    case Current => [(Body(j.project, j.json), Some(Text(j.body)))]
    case StaleOnly => [(Body(j.project, j.json), None), (Stale(j.project, j.json), Some(Text(j.body)))]
  }

  function CommitBodies(j: Job, bound: Bound, ttl: int, staleTtl: int): seq<Write<Key, Value>>
    requires j.Committing?
  {
    if !j.changed then []
    else
      [Write(BoundKey(j, bound), ttl, Text(j.completed))]
      + if bound.Current? then [Write(Stale(j.project, j.json), staleTtl, Text(j.completed))] else []
  }

  function CommitMarkers(j: Job, ttl: int, staleTtl: int): seq<Write<Key, Value>>
    requires j.Committing?
  {
    var markerTtl := Max(staleTtl, ttl);
    [Write(Discovered(j.project, j.json), markerTtl, Digest(j.completed))]
    + if j.ready then [Write(Ready(j.project, j.json), markerTtl, Digest(j.completed))] else []
  }

  function CommitWrites(j: Job, bound: Bound, ttl: int, staleTtl: int): seq<Write<Key, Value>>
    requires j.Committing?
  {
    CommitBodies(j, bound, ttl, staleTtl) + CommitMarkers(j, ttl, staleTtl)
  }

  function FillWrites(project: string, bodies: seq<(bool, string)>, ttl: int, staleTtl: int): seq<Write<Key, Value>>
    decreases |bodies|
  {
    if bodies == [] then []
    else
      [Write(Body(project, bodies[0].0), ttl, Text(bodies[0].1)), Write(Stale(project, bodies[0].0), staleTtl, Text(bodies[0].1))]
      + FillWrites(project, bodies[1..], ttl, staleTtl)
  }

  function ConversionWrites(j: Job, sample: Sample, staleSample: Option<Sample>): seq<Write<Key, Value>>
    requires j.Converting?
  {
    [Write(Body(j.project, j.json), sample.ttl, Text(j.target))]
    + match staleSample
      case Some(x) => [Write(Stale(j.project, j.json), x.ttl, Text(j.target))]
      case None => []
  }

  function RevalidationWrites(j: Job, ttl: int, validators: seq<Write<Key, Value>>): seq<Write<Key, Value>>
    requires j.Revalidating?
  {
    [Write(Body(j.project, j.json), ttl, Text(j.body))] + validators
    + match j.other
      case Some(other) => if other != "" then [Write(Body(j.project, !j.json), ttl, Text(other))] else []
      case None => []
  }

  // ------------------------------------------------------------------- the transitions

  function LoggedOne(log: seq<CopyWrite>, now: real, w: Write<Key, Value>, cause: Cause): seq<CopyWrite> {
    if IsCopy(w.key) && w.value.Text?
    then log + [CopyWrite(w.key, cause, w.value.text, now, now + w.ttl as real)]
    else log
  }

  /** The log after a list of writes of one cause. */
  function Logged(log: seq<CopyWrite>, now: real, writes: seq<Write<Key, Value>>, cause: Cause): seq<CopyWrite>
    decreases |writes|
  {
    if writes == [] then log else Logged(LoggedOne(log, now, writes[0], cause), now, writes[1..], cause)
  }

  /** One backend call that writes: all its writes at one instant. */
  function WriteAll(s: State, writes: seq<Write<Key, Value>>, cause: Cause): (s': State)
    ensures s'.jobs == s.jobs && s'.now == s.now
  {
    s.(store := PutAll(s.store, s.now, writes), log := Logged(s.log, s.now, writes, cause))
  }

  function SetJob(s: State, job: nat, j: Job): State {
    s.(jobs := s.jobs[job := j])
  }

  function EndJob(s: State, job: nat): State {
    s.(jobs := s.jobs - {job})
  }

  predicate Enabled(s: State, step: Step) {
    match step
    case Tick(to) => to >= s.now
    case Evict(_) => true
    case Abandon(job) => job in s.jobs
    case Fill(project, bodies, _, _, validators) => Validators(validators, project)
    case Miss(_, _) => true
    case StartCommit(job, _, _, body, completed, changed, _) => job !in s.jobs && (changed || completed == body)
    case ReadForCommit(job) => job in s.jobs && s.jobs[job].Committing? && s.jobs[job].commitStage.Reading?
    case SampleForCommit(job, _) => job in s.jobs && s.jobs[job].Committing? && s.jobs[job].commitStage.Sampling?
    case WriteCommit(job, _) => job in s.jobs && s.jobs[job].Committing? && s.jobs[job].commitStage.Writing?
    case StartConversion(job, project, json, _) => job !in s.jobs && TextAt(s, Body(project, !json)).Some?
    case SampleSource(job, _) => job in s.jobs && s.jobs[job].Converting? && s.jobs[job].convertStage.SamplingSource?
    case SampleSourceStale(job, _) => job in s.jobs && s.jobs[job].Converting? && s.jobs[job].convertStage.SamplingStale?
    case PublishConversion(job) => job in s.jobs && s.jobs[job].Converting? && s.jobs[job].convertStage.Publishing?
    case StartRevalidation(job, project, json, _) =>
      job !in s.jobs && (TextAt(s, Stale(project, json)).Some? || TextAt(s, Stale(project, !json)).Some?)
    case RestoreStale(job, _) =>
      job in s.jobs && s.jobs[job].Revalidating? && s.jobs[job].revalidateStage.Restoring? && s.jobs[job].other.Some?
    case Republish(job, _, validators) =>
      job in s.jobs && s.jobs[job].Revalidating? && s.jobs[job].revalidateStage.Republishing?
      && Validators(validators, s.jobs[job].project)
    case RefreshReady(job, _) => job in s.jobs && s.jobs[job].Revalidating? && s.jobs[job].revalidateStage.Refreshing?
  }

  /** Which copy an enrichment is bound to, if either still is the body it read. */
  function BoundOf(s: State, j: Job): Option<Bound>
    requires j.Committing?
  {
    var current, stale := Lookup(s.store, Body(j.project, j.json), s.now), Lookup(s.store, Stale(j.project, j.json), s.now);
    if current == Some(Text(j.body)) then Some(Current)
    else if current.None? && stale == Some(Text(j.body)) then Some(StaleOnly)
    else None
  }

  /** The commit finds everything as it expects. */
  predicate CommitLands(s: State, j: Job)
    requires j.Committing? && j.commitStage.Writing?
  {
    Unchanged(s.store, s.now, CommitExpected(j, j.commitStage.bound))
  }

  function CommitCause(j: Job): Cause
    requires j.Committing? && j.commitStage.Writing?
  {
    Enriched(j.body, BoundKey(j, j.commitStage.bound), j.commitStage.sample)
  }

  function Committed(s: State, job: nat, j: Job, staleTtl: int): State
    requires j.Committing? && j.commitStage.Writing?
  {
    if !CommitLands(s, j) then EndJob(s, job)
    else
      var Writing(bound, sample) := j.commitStage;
      var s' := WriteAll(s, CommitWrites(j, bound, sample.ttl, staleTtl), CommitCause(j));
      var body := (j.project, j.json, j.completed);
      EndJob(s'.(left := s.left + {body}, completed := if j.ready then s.completed + {body} else s.completed), job)
  }

  /** The conversion still finds the body it converted. */
  predicate ConversionLands(s: State, j: Job)
    requires j.Converting?
  {
    Unchanged(s.store, s.now, [(Body(j.project, !j.json), Some(Text(j.source)))])
  }

  function Published(s: State, job: nat, j: Job): State
    requires j.Converting? && j.convertStage.Publishing?
  {
    var Publishing(sample, staleSample) := j.convertStage;
    if !ConversionLands(s, j) then EndJob(s, job)
    else EndJob(WriteAll(s, ConversionWrites(j, sample, staleSample), Converted(j.source, sample, staleSample)), job)
  }

  function Revalidation(s: State, project: string, json: bool, choice: Choice): Job
    requires TextAt(s, Stale(project, json)).Some? || TextAt(s, Stale(project, !json)).Some?
  {
    var other := TextAt(s, Stale(project, !json));
    match TextAt(s, Stale(project, json))
    case Some(body) => Revalidating(project, json, body, other, |s.log|, Republishing)
    case None =>
      match choice
      case PassThrough => Revalidating(project, !json, other.value, None, |s.log|, Republishing)
      case ConvertTo(target) => Revalidating(project, json, target, other, |s.log|, Restoring)
  }

  function Refreshed(s: State, job: nat, j: Job, staleTtl: int): State
    requires j.Revalidating? && j.revalidateStage.Refreshing?
  {
    var marker := Ready(j.project, j.json);
    var expected := [(Body(j.project, j.json), Some(Text(j.body))), (marker, Some(Digest(j.body)))];
    if !Unchanged(s.store, s.now, expected) then EndJob(s, job)
    else EndJob(WriteAll(s, [Write(marker, Max(staleTtl, j.revalidateStage.ttl), Digest(j.body))], Revalidated), job)
  }

  function Apply(s: State, step: Step): State
    requires Enabled(s, step)
  {
    match step
    case Tick(to) => s.(now := to)
    case Evict(key) => s.(store := s.store - {key})
    case Abandon(job) => EndJob(s, job)
    case Fill(project, bodies, ttl, staleTtl, validators) =>
      WriteAll(s, validators + FillWrites(project, bodies, ttl, staleTtl), Fetched)
    case Miss(project, ttl) => WriteAll(s, [Write(NotFound(project), ttl, Text("1"))], Fetched)
    case StartCommit(job, project, json, body, completed, changed, ready) =>
      SetJob(s, job, Committing(project, json, body, completed, changed, ready, Reading))
    case ReadForCommit(job) =>
      (match BoundOf(s, s.jobs[job])
       case Some(bound) => SetJob(s, job, s.jobs[job].(commitStage := Sampling(bound)))
       case None => EndJob(s, job))
    case SampleForCommit(job, rounding) =>
      var j := s.jobs[job];
      (match SampleOf(s, BoundKey(j, j.commitStage.bound), rounding)
       case Some(sample) => SetJob(s, job, j.(commitStage := Writing(j.commitStage.bound, sample)))
       case None => EndJob(s, job))
    case WriteCommit(job, staleTtl) => Committed(s, job, s.jobs[job], staleTtl)
    case StartConversion(job, project, json, target) =>
      SetJob(s, job, Converting(project, json, TextAt(s, Body(project, !json)).value, target, SamplingSource))
    case SampleSource(job, rounding) =>
      var j := s.jobs[job];
      (match SampleOf(s, Body(j.project, !j.json), rounding)
       case Some(sample) => SetJob(s, job, j.(convertStage := SamplingStale(sample)))
       case None => EndJob(s, job))
    case SampleSourceStale(job, rounding) =>
      var j := s.jobs[job];
      SetJob(s, job, j.(convertStage := Publishing(j.convertStage.sample, SampleOf(s, Stale(j.project, !j.json), rounding))))
    case PublishConversion(job) => Published(s, job, s.jobs[job])
    case StartRevalidation(job, project, json, choice) => SetJob(s, job, Revalidation(s, project, json, choice))
    case RestoreStale(job, staleTtl) =>
      var j := s.jobs[job];
      SetJob(WriteAll(s, [Write(Stale(j.project, !j.json), staleTtl, Text(j.other.value))], Revalidated), job,
             j.(revalidateStage := Republishing))
    case Republish(job, ttl, validators) =>
      var j := s.jobs[job];
      SetJob(WriteAll(s, RevalidationWrites(j, ttl, validators), Revalidated), job, j.(revalidateStage := Refreshing(ttl)))
    case RefreshReady(job, staleTtl) => Refreshed(s, job, s.jobs[job], staleTtl)
  }

  ghost predicate Run(s: State, steps: seq<Step>, end: State)
    decreases |steps|
  {
    if steps == [] then end == s
    else Enabled(s, steps[0]) && Run(Apply(s, steps[0]), steps[1..], end)
  }

  // --------------------------------------------------------------------- invariants

  ghost predicate Backed(left: set<(string, bool, string)>, completed: set<(string, bool, string)>, k: Key, v: Value) {
    && (k.Ready? ==> v.Digest? && (k.project, k.json, v.of) in completed)
    && (k.Discovered? ==> v.Digest? && (k.project, k.json, v.of) in left)
  }

  /** Every marker is the digest of a body that a commit left, a ready one if need be. */
  ghost predicate MarkersBacked(store: Shared, left: set<(string, bool, string)>, completed: set<(string, bool, string)>) {
    forall k :: k in store ==> Backed(left, completed, k, store[k].value)
  }

  /** The log knows what every copy holds and when it expires. */
  ghost predicate Tracks(store: Shared, log: seq<CopyWrite>) {
    forall k :: k in store && IsCopy(k) ==>
      Latest(log, k).Some? && store[k] == Entry(Latest(log, k).value.exp, Text(Latest(log, k).value.value))
  }

  ghost predicate SampledBefore(now: real, x: Sample) {
    TrueSample(x) && x.at <= now
  }

  ghost predicate JobSane(now: real, j: Job) {
    match j
    case Committing(_, _, body, completed, changed, _, stage) =>
      (changed || completed == body) && (stage.Writing? ==> SampledBefore(now, stage.sample))
    case Converting(_, _, _, _, stage) =>
      && (!stage.SamplingSource? ==> SampledBefore(now, stage.sample))
      && (stage.Publishing? && stage.staleSample.Some? ==> SampledBefore(now, stage.staleSample.value))
    case Revalidating(_, _, _, _, _, _) => true
  }

  ghost predicate JobsSane(s: State) {
    forall job :: job in s.jobs ==> JobSane(s.now, s.jobs[job])
  }

  /** The copy whose lifetime a write goes on with, and the sample it was taken in. */
  function Timing(w: CopyWrite): Option<(Key, Sample)> {
    match w.cause
    case Enriched(_, bound, sample) => if w.key == bound then Some((bound, sample)) else None
    case Converted(_, sample, staleSample) =>
      if w.key.Body? then Some((Body(w.key.project, !w.key.json), sample))
      else if w.key.Stale? && staleSample.Some? then Some((Stale(w.key.project, !w.key.json), staleSample.value))
      else None
    case _ => None
  }

  /** How one write to a copy relates to what was there before it. */
  ghost predicate Descends(before: seq<CopyWrite>, w: CopyWrite) {
    && (w.cause.Enriched? && w.key == w.cause.bound ==> Holds(before, w.key, w.cause.from))
    && (w.cause.Converted? && IsCopy(w.key) ==> Holds(before, Body(w.key.project, !w.key.json), w.cause.source))
    && (Timing(w).Some? ==> var x := Timing(w).value.1; SampledBefore(w.at, x) && w.exp == w.at + x.ttl as real)
  }

  ghost predicate Lineage(log: seq<CopyWrite>) {
    forall i :: 0 <= i < |log| ==> Descends(log[..i], log[i])
  }

  ghost predicate Inv(s: State) {
    MarkersBacked(s.store, s.left, s.completed) && Tracks(s.store, s.log) && JobsSane(s) && Lineage(s.log)
  }

  // -------------------------------------------------------- lists of writes keep them

  lemma {:induction false} PutAllBacked(store: Shared, now: real, writes: seq<Write<Key, Value>>,
                                         left: set<(string, bool, string)>, completed: set<(string, bool, string)>)
    requires MarkersBacked(store, left, completed)
    requires forall i :: 0 <= i < |writes| ==> Backed(left, completed, writes[i].key, writes[i].value)
    ensures MarkersBacked(PutAll(store, now, writes), left, completed)
    decreases |writes|
  {
    if writes != [] {
      PutAllBacked(Put(store, now, writes[0]), now, writes[1..], left, completed);
    }
  }

  lemma LatestSnoc(log: seq<CopyWrite>, w: CopyWrite, k: Key)
    ensures Latest(log + [w], k) == if w.key == k then Some(w) else Latest(log, k)
  {
    assert (log + [w])[..|log|] == log;
  }

  ghost predicate CopiesAreText(writes: seq<Write<Key, Value>>) {
    forall i :: 0 <= i < |writes| ==> (IsCopy(writes[i].key) ==> writes[i].value.Text?)
  }

  lemma PutTracks(store: Shared, log: seq<CopyWrite>, now: real, w: Write<Key, Value>, cause: Cause)
    requires Tracks(store, log) && (IsCopy(w.key) ==> w.value.Text?)
    ensures Tracks(Put(store, now, w), LoggedOne(log, now, w, cause))
  {
    var store', log' := Put(store, now, w), LoggedOne(log, now, w, cause);
    forall k | k in store' && IsCopy(k)
      ensures Latest(log', k).Some? && store'[k] == Entry(Latest(log', k).value.exp, Text(Latest(log', k).value.value))
    {
      if IsCopy(w.key) {
        LatestSnoc(log, CopyWrite(w.key, cause, w.value.text, now, now + w.ttl as real), k);
      }
      hide Latest;
    }
  }

  lemma {:induction false} PutAllTracks(store: Shared, log: seq<CopyWrite>, now: real, writes: seq<Write<Key, Value>>, cause: Cause)
    requires Tracks(store, log) && CopiesAreText(writes)
    ensures Tracks(PutAll(store, now, writes), Logged(log, now, writes, cause))
    decreases |writes|
  {
    hide Tracks;
    if writes != [] {
      PutTracks(store, log, now, writes[0], cause);
      PutAllTracks(Put(store, now, writes[0]), LoggedOne(log, now, writes[0], cause), now, writes[1..], cause);
    }
  }

  lemma LineageSnoc(log: seq<CopyWrite>, w: CopyWrite)
    requires Lineage(log) && Descends(log, w)
    ensures Lineage(log + [w])
  {
    var log' := log + [w];
    forall i | 0 <= i < |log'|
      ensures Descends(log'[..i], log'[i])
    {
      assert log'[..i] == if i < |log| then log[..i] else log;
    }
  }

  lemma {:induction false} LoggedLineage(log: seq<CopyWrite>, now: real, writes: seq<Write<Key, Value>>, cause: Cause)
    requires Lineage(log) && (cause == Fetched || cause == Revalidated)
    ensures Lineage(Logged(log, now, writes, cause))
    decreases |writes|
  {
    if writes != [] {
      var w := writes[0];
      if IsCopy(w.key) && w.value.Text? {
        LineageSnoc(log, CopyWrite(w.key, cause, w.value.text, now, now + w.ttl as real));
      }
      LoggedLineage(LoggedOne(log, now, w, cause), now, writes[1..], cause);
    }
  }

  lemma {:induction false} LoggedSkips(log: seq<CopyWrite>, now: real, writes: seq<Write<Key, Value>>, cause: Cause)
    requires forall i :: 0 <= i < |writes| ==> !IsCopy(writes[i].key)
    ensures Logged(log, now, writes, cause) == log
    decreases |writes|
  {
    if writes != [] {
      LoggedSkips(log, now, writes[1..], cause);
    }
  }

  lemma {:induction false} LoggedConcat(log: seq<CopyWrite>, now: real, a: seq<Write<Key, Value>>, b: seq<Write<Key, Value>>, cause: Cause)
    ensures Logged(log, now, a + b, cause) == Logged(Logged(log, now, a, cause), now, b, cause)
    decreases |a|
  {
    if a == [] {
      assert a + b == b;
    } else {
      assert (a + b)[1..] == a[1..] + b;
      LoggedConcat(LoggedOne(log, now, a[0], cause), now, a[1..], b, cause);
    }
  }

  /** What a list of writes adds to the log has their cause and their keys. */
  lemma {:induction false} LoggedAdds(log: seq<CopyWrite>, now: real, writes: seq<Write<Key, Value>>, cause: Cause)
    ensures var log' := Logged(log, now, writes, cause);
      log <= log' && forall i :: |log| <= i < |log'| ==>
        log'[i].cause == cause && IsCopy(log'[i].key) && exists n :: 0 <= n < |writes| && writes[n].key == log'[i].key
    decreases |writes|
  {
    if writes != [] {
      var one, log' := LoggedOne(log, now, writes[0], cause), Logged(log, now, writes, cause);
      LoggedAdds(one, now, writes[1..], cause);
      forall i | |log| <= i < |log'|
        ensures log'[i].cause == cause && IsCopy(log'[i].key) && exists n :: 0 <= n < |writes| && writes[n].key == log'[i].key
      {
        if i < |one| {
          assert log'[i] == one[i] && writes[0].key == log'[i].key;
        } else {
          var n :| 0 <= n < |writes[1..]| && writes[1..][n].key == log'[i].key;
          assert writes[n + 1].key == log'[i].key;
        }
      }
    }
  }

  /** The log after one write, or two. */
  lemma LoggedFew(log: seq<CopyWrite>, now: real, a: Write<Key, Value>, b: Write<Key, Value>, cause: Cause)
    ensures Logged(log, now, [a], cause) == LoggedOne(log, now, a, cause)
    ensures Logged(log, now, [a, b], cause) == LoggedOne(LoggedOne(log, now, a, cause), now, b, cause)
  {
    assert [a, b][1..] == [b] && [b][1..] == [] && [a][1..] == [];
    var one := LoggedOne(log, now, a, cause);
    hide LoggedOne;
    assert Logged(one, now, [b], cause) == LoggedOne(one, now, b, cause);
    assert Logged(log, now, [a, b], cause) == Logged(one, now, [b], cause);
  }

  function CopyOf(now: real, w: Write<Key, Value>, cause: Cause): CopyWrite
    requires w.value.Text?
  {
    CopyWrite(w.key, cause, w.value.text, now, now + w.ttl as real)
  }

  /** One write to a copy that descends from what was there, and perhaps another one. */
  lemma FewKeepLineage(log: seq<CopyWrite>, now: real, a: Write<Key, Value>, b: Write<Key, Value>, cause: Cause, both: bool)
    requires IsCopy(a.key) && IsCopy(b.key) && a.value.Text? && b.value.Text? && Lineage(log)
    requires Descends(log, CopyOf(now, a, cause))
    requires both ==> Descends(log + [CopyOf(now, a, cause)], CopyOf(now, b, cause))
    ensures Lineage(Logged(log, now, if both then [a, b] else [a], cause))
  {
    LoggedFew(log, now, a, b, cause);
    hide Logged;
    hide Descends;
    LineageSnoc(log, CopyOf(now, a, cause));
    if both {
      LineageSnoc(log + [CopyOf(now, a, cause)], CopyOf(now, b, cause));
    }
    hide Lineage;
  }

  /** A write of bodies from upstream, or of anything that is no body and no marker. */
  lemma PlainWriteKeepsInv(s: State, writes: seq<Write<Key, Value>>, cause: Cause)
    requires Inv(s) && (cause == Fetched || cause == Revalidated)
    requires forall i :: 0 <= i < |writes| ==> Backed(s.left, s.completed, writes[i].key, writes[i].value)
    requires CopiesAreText(writes)
    ensures Inv(WriteAll(s, writes, cause))
  {
    PutAllBacked(s.store, s.now, writes, s.left, s.completed);
    PutAllTracks(s.store, s.log, s.now, writes, cause);
    LoggedLineage(s.log, s.now, writes, cause);
  }

  lemma {:induction false} FillWritesPlain(project: string, bodies: seq<(bool, string)>, ttl: int, staleTtl: int)
    ensures forall w <- FillWrites(project, bodies, ttl, staleTtl) :: w.value.Text? && IsCopy(w.key)
    decreases |bodies|
  {
    if bodies != [] {
      FillWritesPlain(project, bodies[1..], ttl, staleTtl);
    }
  }

  predicate IsMarker(k: Key) {
    k.Ready? || k.Discovered?
  }

  lemma FillKeepsInv(s: State, project: string, bodies: seq<(bool, string)>, ttl: int, staleTtl: int, validators: seq<Write<Key, Value>>)
    requires Inv(s) && Validators(validators, project)
    ensures Inv(WriteAll(s, validators + FillWrites(project, bodies, ttl, staleTtl), Fetched))
  {
    FillWritesPlain(project, bodies, ttl, staleTtl);
    var writes := validators + FillWrites(project, bodies, ttl, staleTtl);
    forall i | 0 <= i < |writes|
      ensures writes[i].value.Text? && !IsMarker(writes[i].key)
    {
      if i < |validators| {
        assert IsValidator(validators[i], project);
      } else {
        assert writes[i] in FillWrites(project, bodies, ttl, staleTtl);
      }
    }
    PlainWriteKeepsInv(s, writes, Fetched);
  }

  // ----------------------------------------------------------------- the commit itself

  lemma CommitKeepsMarkers(s: State, j: Job, bound: Bound, ttl: int, staleTtl: int)
    requires Inv(s) && j.Committing?
    ensures var body := (j.project, j.json, j.completed);
      MarkersBacked(PutAll(s.store, s.now, CommitWrites(j, bound, ttl, staleTtl)), s.left + {body},
                    if j.ready then s.completed + {body} else s.completed)
  {
    var body := (j.project, j.json, j.completed);
    var left, completed := s.left + {body}, if j.ready then s.completed + {body} else s.completed;
    assert MarkersBacked(s.store, left, completed);
    PutAllBacked(s.store, s.now, CommitWrites(j, bound, ttl, staleTtl), left, completed);
  }

  lemma MarkersOnly(j: Job, ttl: int, staleTtl: int)
    requires j.Committing?
    ensures forall w <- CommitMarkers(j, ttl, staleTtl) :: IsMarker(w.key)
  {
  }

  lemma BoundCopyHolds(s: State, j: Job)
    requires Tracks(s.store, s.log) && j.Committing? && j.commitStage.Writing? && CommitLands(s, j)
    ensures Lookup(s.store, BoundKey(j, j.commitStage.bound), s.now) == Some(Text(j.body))
    ensures Holds(s.log, BoundKey(j, j.commitStage.bound), j.body)
  {
    var key, expected := BoundKey(j, j.commitStage.bound), CommitExpected(j, j.commitStage.bound);
    assert expected[|expected| - 1] == (key, Some(Text(j.body)));
    assert Lookup(s.store, expected[|expected| - 1].0, s.now) == expected[|expected| - 1].1;
    hide Latest;
  }

  lemma CommitBodiesKeepLineage(s: State, j: Job, staleTtl: int)
    requires Inv(s) && Lineage(s.log) && j.Committing? && j.commitStage.Writing?
    requires SampledBefore(s.now, j.commitStage.sample) && CommitLands(s, j)
    ensures var Writing(bound, sample) := j.commitStage;
      Lineage(Logged(s.log, s.now, CommitBodies(j, bound, sample.ttl, staleTtl), CommitCause(j)))
  {
    var Writing(bound, sample) := j.commitStage;
    if j.changed {
      var cause := CommitCause(j);
      var w := Write(BoundKey(j, bound), sample.ttl, Text(j.completed));
      var along := Write(Stale(j.project, j.json), staleTtl, Text(j.completed));
      assert CommitBodies(j, bound, sample.ttl, staleTtl) == if bound.Current? then [w, along] else [w];
      BoundCopyHolds(s, j);
      hide CommitBodies;
      hide CommitLands;
      hide Inv;
      hide Latest;
      FewKeepLineage(s.log, s.now, w, along, cause, bound.Current?);
    }
  }

  lemma CommitKeepsLineage(s: State, j: Job, staleTtl: int)
    requires Inv(s) && j.Committing? && j.commitStage.Writing? && SampledBefore(s.now, j.commitStage.sample) && CommitLands(s, j)
    ensures var Writing(bound, sample) := j.commitStage;
      Lineage(Logged(s.log, s.now, CommitWrites(j, bound, sample.ttl, staleTtl), CommitCause(j)))
  {
    var Writing(bound, sample) := j.commitStage;
    CommitBodiesKeepLineage(s, j, staleTtl);
    MarkersOnly(j, sample.ttl, staleTtl);
    hide CommitBodies;
    hide CommitMarkers;
    hide Lineage;
    var bodies, markers := CommitBodies(j, bound, sample.ttl, staleTtl), CommitMarkers(j, sample.ttl, staleTtl);
    LoggedConcat(s.log, s.now, bodies, markers, CommitCause(j));
    assert forall i :: 0 <= i < |markers| ==> markers[i] in markers;
    LoggedSkips(Logged(s.log, s.now, bodies, CommitCause(j)), s.now, markers, CommitCause(j));
  }

  /** What a changing commit adds to the log. */
  lemma CommitLog(log: seq<CopyWrite>, now: real, j: Job, staleTtl: int)
    requires j.Committing? && j.commitStage.Writing? && j.changed
    ensures var Writing(bound, sample) := j.commitStage;
      var cause, stale := CommitCause(j), Stale(j.project, j.json);
      Logged(log, now, CommitWrites(j, bound, sample.ttl, staleTtl), cause)
        == log + [CopyWrite(BoundKey(j, bound), cause, j.completed, now, now + sample.ttl as real)]
               + if bound.Current? then [CopyWrite(stale, cause, j.completed, now, now + staleTtl as real)] else []
  {
    var Writing(bound, sample) := j.commitStage;
    var ttl, cause := sample.ttl, CommitCause(j);
    var a, b := Write(BoundKey(j, bound), ttl, Text(j.completed)), Write(Stale(j.project, j.json), staleTtl, Text(j.completed));
    var markers := CommitMarkers(j, ttl, staleTtl);
    assert CommitWrites(j, bound, ttl, staleTtl) == (if bound.Current? then [a, b] else [a]) + markers by {
      assert CommitBodies(j, bound, ttl, staleTtl) == if bound.Current? then [a, b] else [a];
      hide CommitMarkers;
    }
    MarkersOnly(j, ttl, staleTtl);
    hide CommitWrites;
    hide CommitBodies;
    hide CommitMarkers;
    LoggedFewAndMarkers(log, now, a, b, markers, cause, bound.Current?);
  }

  lemma LoggedFewAndMarkers(log: seq<CopyWrite>, now: real, a: Write<Key, Value>, b: Write<Key, Value>,
                            markers: seq<Write<Key, Value>>, cause: Cause, both: bool)
    requires IsCopy(a.key) && IsCopy(b.key) && a.value.Text? && b.value.Text?
    requires forall w <- markers :: IsMarker(w.key)
    ensures Logged(log, now, (if both then [a, b] else [a]) + markers, cause)
      == log + [CopyOf(now, a, cause)] + if both then [CopyOf(now, b, cause)] else []
  {
    var few := if both then [a, b] else [a];
    assert forall i :: 0 <= i < |markers| ==> markers[i] in markers;
    LoggedConcat(log, now, few, markers, cause);
    LoggedFew(log, now, a, b, cause);
    LoggedSkips(Logged(log, now, few, cause), now, markers, cause);
    hide Logged;
  }

  lemma CommitKeepsInv(s: State, job: nat, staleTtl: int)
    requires Inv(s) && Enabled(s, WriteCommit(job, staleTtl))
    ensures Inv(Committed(s, job, s.jobs[job], staleTtl))
  {
    var j := s.jobs[job];
    assert JobSane(s.now, j);
    if CommitLands(s, j) {
      var Writing(bound, sample) := j.commitStage;
      CommitKeepsMarkers(s, j, bound, sample.ttl, staleTtl);
      CommitKeepsLineage(s, j, staleTtl);
      assert CopiesAreText(CommitWrites(j, bound, sample.ttl, staleTtl));
      hide CommitWrites;
      hide Lineage;
      hide MarkersBacked;
      PutAllTracks(s.store, s.log, s.now, CommitWrites(j, bound, sample.ttl, staleTtl), CommitCause(j));
      hide Tracks;
    }
  }

  // ------------------------------------------------------- conversions, revalidations

  lemma SourceHolds(s: State, j: Job)
    requires Tracks(s.store, s.log) && j.Converting? && ConversionLands(s, j)
    ensures Lookup(s.store, Body(j.project, !j.json), s.now) == Some(Text(j.source))
    ensures Holds(s.log, Body(j.project, !j.json), j.source)
  {
    var expected := [(Body(j.project, !j.json), Some(Text(j.source)))];
    assert Lookup(s.store, expected[0].0, s.now) == expected[0].1;
    hide Latest;
  }

  lemma ConversionKeepsLineage(s: State, j: Job)
    requires Inv(s) && Lineage(s.log) && j.Converting? && j.convertStage.Publishing? && JobSane(s.now, j) && ConversionLands(s, j)
    ensures var Publishing(sample, staleSample) := j.convertStage;
      Lineage(Logged(s.log, s.now, ConversionWrites(j, sample, staleSample), Converted(j.source, sample, staleSample)))
  {
    var Publishing(sample, staleSample) := j.convertStage;
    var cause := Converted(j.source, sample, staleSample);
    var w := Write(Body(j.project, j.json), sample.ttl, Text(j.target));
    var along := Write(Stale(j.project, j.json), if staleSample.Some? then staleSample.value.ttl else 0, Text(j.target));
    assert ConversionWrites(j, sample, staleSample) == if staleSample.Some? then [w, along] else [w];
    SourceHolds(s, j);
    LatestSnoc(s.log, CopyOf(s.now, w, cause), Body(j.project, !j.json));
    hide ConversionWrites;
    hide ConversionLands;
    hide Inv;
    hide Latest;
    FewKeepLineage(s.log, s.now, w, along, cause, staleSample.Some?);
  }

  lemma ConversionKeepsInv(s: State, job: nat)
    requires Inv(s) && Enabled(s, PublishConversion(job))
    ensures Inv(Published(s, job, s.jobs[job]))
  {
    var j := s.jobs[job];
    assert JobSane(s.now, j);
    if ConversionLands(s, j) {
      var Publishing(sample, staleSample) := j.convertStage;
      var writes := ConversionWrites(j, sample, staleSample);
      ConversionKeepsLineage(s, j);
      PutAllBacked(s.store, s.now, writes, s.left, s.completed);
      assert CopiesAreText(writes);
      hide ConversionWrites;
      hide Lineage;
      hide MarkersBacked;
      PutAllTracks(s.store, s.log, s.now, writes, Converted(j.source, sample, staleSample));
      hide Tracks;
    }
  }

  lemma RefreshKeepsInv(s: State, job: nat, staleTtl: int)
    requires Inv(s) && Enabled(s, RefreshReady(job, staleTtl))
    ensures Inv(Refreshed(s, job, s.jobs[job], staleTtl))
  {
    var j := s.jobs[job];
    var marker := Ready(j.project, j.json);
    var expected := [(Body(j.project, j.json), Some(Text(j.body))), (marker, Some(Digest(j.body)))];
    if Unchanged(s.store, s.now, expected) {
      assert Lookup(s.store, expected[1].0, s.now) == expected[1].1;
      assert Backed(s.left, s.completed, marker, s.store[marker].value);
      PlainWriteKeepsInv(s, [Write(marker, Max(staleTtl, j.revalidateStage.ttl), Digest(j.body))], Revalidated);
    }
  }

  lemma RepublishKeepsInv(s: State, job: nat, ttl: int, validators: seq<Write<Key, Value>>)
    requires Inv(s) && Enabled(s, Republish(job, ttl, validators))
    ensures Inv(WriteAll(s, RevalidationWrites(s.jobs[job], ttl, validators), Revalidated))
  {
    var writes := RevalidationWrites(s.jobs[job], ttl, validators);
    forall i | 0 <= i < |writes|
      ensures writes[i].value.Text? && !IsMarker(writes[i].key)
    {
      if 1 <= i <= |validators| {
        assert writes[i] == validators[i - 1] && IsValidator(validators[i - 1], s.jobs[job].project);
      }
    }
    PlainWriteKeepsInv(s, writes, Revalidated);
  }

  /** Steps that write nothing. */
  predicate IsQuiet(step: Step) {
    step.Tick? || step.Evict? || step.Abandon? || step.StartCommit? || step.ReadForCommit? || step.SampleForCommit?
    || step.StartConversion? || step.SampleSource? || step.SampleSourceStale? || step.StartRevalidation?
  }

  lemma QuietKeepsInv(s: State, step: Step)
    requires Inv(s) && Enabled(s, step) && IsQuiet(step)
    ensures Inv(Apply(s, step))
  {
    hide Lineage;
    hide Latest;
    hide Ttl;
  }

  /** Every step of every job, and every loss of an entry, keeps the invariant. */
  lemma InvPreserved(s: State, step: Step)
    requires Inv(s) && Enabled(s, step)
    ensures Inv(Apply(s, step))
  {
    if IsQuiet(step) {
      QuietKeepsInv(s, step);
    } else {
      WritingKeepsInv(s, step);
    }
  }

  lemma WritingKeepsInv(s: State, step: Step)
    requires Inv(s) && Enabled(s, step) && !IsQuiet(step)
    ensures Inv(Apply(s, step))
  {
    match step {
      case Fill(project, bodies, ttl, staleTtl, validators) => FillKeepsInv(s, project, bodies, ttl, staleTtl, validators);
      case Miss(project, ttl) => PlainWriteKeepsInv(s, [Write(NotFound(project), ttl, Text("1"))], Fetched);
      case WriteCommit(job, staleTtl) => CommitKeepsInv(s, job, staleTtl);
      case PublishConversion(job) => ConversionKeepsInv(s, job);
      case RestoreStale(job, staleTtl) =>
        var j := s.jobs[job];
        PlainWriteKeepsInv(s, [Write(Stale(j.project, !j.json), staleTtl, Text(j.other.value))], Revalidated);
      case Republish(job, ttl, validators) => RepublishKeepsInv(s, job, ttl, validators);
      case RefreshReady(job, staleTtl) => RefreshKeepsInv(s, job, staleTtl);
    }
    hide WriteAll;
    hide MarkersBacked;
    hide Tracks;
    hide Lineage;
  }

  lemma {:induction false} RunKeepsInv(s: State, steps: seq<Step>, end: State)
    requires Inv(s) && Run(s, steps, end)
    ensures Inv(end)
    decreases |steps|
  {
    if steps != [] {
      InvPreserved(s, steps[0]);
      hide Inv;
      hide Apply;
      RunKeepsInv(Apply(s, steps[0]), steps[1..], end);
    }
  }

  lemma ReachableKeepsInv(steps: seq<Step>, end: State)
    requires Run(INITIAL, steps, end)
    ensures Inv(end)
  {
    hide Run;
    assert Inv(INITIAL);
    hide Inv;
    RunKeepsInv(INITIAL, steps, end);
  }

  // ------------------------------------------------------------ what steps add to the log

  function CauseOf(s: State, step: Step): Cause
    requires Enabled(s, step)
  {
    match step
    case WriteCommit(job, _) => CommitCause(s.jobs[job])
    case PublishConversion(job) =>
      Converted(s.jobs[job].source, s.jobs[job].convertStage.sample, s.jobs[job].convertStage.staleSample)
    case Fill(_, _, _, _, _) => Fetched
    case _ => Revalidated
  }

  /** The copies that a commit or a conversion may write. */
  predicate WritesTo(s: State, step: Step, k: Key)
    requires Enabled(s, step)
  {
    match step
    case WriteCommit(job, _) =>
      var j := s.jobs[job];
      k == BoundKey(j, j.commitStage.bound) || (j.commitStage.bound.Current? && k == Stale(j.project, j.json))
    case PublishConversion(job) =>
      var j := s.jobs[job];
      k == Body(j.project, j.json) || (j.convertStage.staleSample.Some? && k == Stale(j.project, j.json))
    case _ => true
  }

  /** The log only grows, by writes of the step's cause to the step's copies. */
  lemma StepLogs(s: State, step: Step)
    requires Enabled(s, step)
    ensures var log' := Apply(s, step).log;
      s.log <= log' && forall i :: |s.log| <= i < |log'| ==> log'[i].cause == CauseOf(s, step) && WritesTo(s, step, log'[i].key)
  {
    match step {
      case Fill(p, bodies, ttl, staleTtl, validators) =>
        LoggedAdds(s.log, s.now, validators + FillWrites(p, bodies, ttl, staleTtl), Fetched);
      case Miss(p, ttl) => LoggedFew(s.log, s.now, Write(NotFound(p), ttl, Text("1")), Write(NotFound(p), ttl, Text("1")), Fetched);
      case WriteCommit(job, staleTtl) => CommitLogs(s, job, staleTtl);
      case PublishConversion(job) =>
        var j := s.jobs[job];
        var Publishing(x, y) := j.convertStage;
        LoggedAdds(s.log, s.now, ConversionWrites(j, x, y), Converted(j.source, x, y));
      case RestoreStale(job, staleTtl) =>
        var j := s.jobs[job];
        LoggedAdds(s.log, s.now, [Write(Stale(j.project, !j.json), staleTtl, Text(j.other.value))], Revalidated);
      case Republish(job, ttl, validators) =>
        LoggedAdds(s.log, s.now, RevalidationWrites(s.jobs[job], ttl, validators), Revalidated);
      case RefreshReady(job, staleTtl) =>
        var j := s.jobs[job];
        LoggedAdds(s.log, s.now, [Write(Ready(j.project, j.json), Max(staleTtl, j.revalidateStage.ttl), Digest(j.body))], Revalidated);
      case _ =>
    }
    hide Logged;
    hide PutAll;
  }

  lemma CommitLogs(s: State, job: nat, staleTtl: int)
    requires Enabled(s, WriteCommit(job, staleTtl))
    ensures var step := WriteCommit(job, staleTtl); var log' := Apply(s, step).log;
      s.log <= log' && forall i :: |s.log| <= i < |log'| ==> log'[i].cause == CauseOf(s, step) && WritesTo(s, step, log'[i].key)
  {
    var j := s.jobs[job];
    var Writing(bound, sample) := j.commitStage;
    var writes := CommitWrites(j, bound, sample.ttl, staleTtl);
    LoggedAdds(s.log, s.now, writes, CommitCause(j));
    assert forall n :: 0 <= n < |writes| && IsCopy(writes[n].key) ==> WritesTo(s, WriteCommit(job, staleTtl), writes[n].key);
    hide Logged;
    hide PutAll;
  }

  // ---------------------------------------------------------------------- the theorems

  /** The cache lifetime announced with a response body. */
  function ResponseTtl(s: State, project: string, json: bool, body: string, rounding: Rounding): Option<int> {
    TtlIfValues(s.store, Ready(project, json), Digest(body), Body(project, json), Text(body), s.now, rounding)
  }

  /** A positive lifetime is announced only for a body that a ready commit published and
      that is still current. It ends at most half a second after the sooner of the body
      and its marker, and after it at all exactly when rounding up made it so. */
  lemma ReadinessIsTruthful(steps: seq<Step>, end: State, project: string, json: bool, body: string, rounding: Rounding)
    requires Run(INITIAL, steps, end) && ResponseTtl(end, project, json, body, rounding).Some?
    ensures (project, json, body) in end.completed
    ensures Lookup(end.store, Body(project, json), end.now) == Some(Text(body))
    ensures var ttl := ResponseTtl(end, project, json, body, rounding).value;
      var sooner := Sooner(end.store[Ready(project, json)].exp, end.store[Body(project, json)].exp);
      && ttl > 0 && end.now + ttl as real <= sooner + Slack(rounding)
      && (end.now + ttl as real > sooner <==> RoundsUp(sooner - end.now, rounding))
  {
    ReachableKeepsInv(steps, end);
    assert Backed(end.left, end.completed, Ready(project, json), end.store[Ready(project, json)].value);
    var sooner := Sooner(end.store[Ready(project, json)].exp, end.store[Body(project, json)].exp);
    WholeExceeds(sooner - end.now, rounding);
    hide Run;
  }

  /** A discovered marker, on which other processes rely to skip discovery, is always the
      digest of a body that some commit left. */
  lemma DiscoveryIsTruthful(steps: seq<Step>, end: State, project: string, json: bool)
    requires Run(INITIAL, steps, end) && Discovered(project, json) in end.store
    ensures var v := end.store[Discovered(project, json)].value;
      v.Digest? && (project, json, v.of) in end.left
  {
    ReachableKeepsInv(steps, end);
    assert Backed(end.left, end.completed, Discovered(project, json), end.store[Discovered(project, json)].value);
  }

  /** No lost update: in every run, a committed enrichment replaced exactly the body it
      was made from, in the copy it was bound to; a converted body was made from its
      source's latest body; and each copy holds what was last written to it. */
  lemma NoLostUpdate(steps: seq<Step>, end: State, i: nat)
    requires Run(INITIAL, steps, end) && i < |end.log|
    ensures var w := end.log[i];
      && (w.cause.Enriched? && w.key == w.cause.bound ==> Holds(end.log[..i], w.key, w.cause.from))
      && (w.cause.Converted? && IsCopy(w.key) ==> Holds(end.log[..i], Body(w.key.project, !w.key.json), w.cause.source))
    ensures forall k :: k in end.store && IsCopy(k) ==>
      (end.store[k].value.Text? && Holds(end.log, k, end.store[k].value.text))
  {
    ReachableKeepsInv(steps, end);
    assert Descends(end.log[..i], end.log[i]);
    hide Run;
    hide Latest;
  }

  // ------------------------------------------------------------------------ one commit

  lemma CommitLastWrites(j: Job, bound: Bound, ttl: int, staleTtl: int)
    requires j.Committing?
    ensures var writes := CommitWrites(j, bound, ttl, staleTtl);
      && LastWrite(writes, Body(j.project, j.json)) == (if j.changed && bound.Current? then 0 else -1)
      && LastWrite(writes, Stale(j.project, j.json)) == (if !j.changed then -1 else if bound.Current? then 1 else 0)
  {
    var current, stale := Body(j.project, j.json), Stale(j.project, j.json);
    var bodies, markers := CommitBodies(j, bound, ttl, staleTtl), CommitMarkers(j, ttl, staleTtl);
    MarkersOnly(j, ttl, staleTtl);
    assert forall i :: 0 <= i < |markers| ==> markers[i] in markers;
    hide CommitMarkers;
    LastWriteBefore(bodies, markers, current);
    LastWriteBefore(bodies, markers, stale);
    LastWriteIs(bodies, current, if j.changed && bound.Current? then 0 else -1);
    LastWriteIs(bodies, stale, if !j.changed then -1 else if bound.Current? then 1 else 0);
  }

  /** What a commit that lands leaves in the two copies. */
  lemma LandedCommit(s: State, job: nat, staleTtl: int)
    requires Enabled(s, WriteCommit(job, staleTtl)) && CommitLands(s, s.jobs[job])
    ensures var j, store := s.jobs[job], Apply(s, WriteCommit(job, staleTtl)).store;
      var Writing(bound, sample) := j.commitStage;
      var current, stale := Body(j.project, j.json), Stale(j.project, j.json);
      var completed := Entry(s.now + sample.ttl as real, Text(j.completed));
      && (forall k :: k == current || k == stale ==> (k in store <==> k in s.store || (j.changed && (bound.Current? || k == stale))))
      && (j.changed ==> store[BoundKey(j, bound)] == completed)
      && (j.changed && bound.Current? ==> store[stale] == Entry(s.now + staleTtl as real, Text(j.completed)))
      && (bound.StaleOnly? || !j.changed ==> (current in s.store ==> store[current] == s.store[current]))
      && (!j.changed ==> (stale in s.store ==> store[stale] == s.store[stale]))
  {
    var j := s.jobs[job];
    var Writing(bound, sample) := j.commitStage;
    var writes := CommitWrites(j, bound, sample.ttl, staleTtl);
    LastWriteWins(s.store, s.now, writes, Body(j.project, j.json));
    LastWriteWins(s.store, s.now, writes, Stale(j.project, j.json));
    CommitLastWrites(j, bound, sample.ttl, staleTtl);
    hide CommitMarkers;
    hide PutAll;
    hide LastWrite;
    hide Logged;
  }

  /** In every run: a commit changes the two copies only where both are as it read them,
      replaces the body it read by the one it made, and never makes a current body where
      there was none. Its stale copy lives as long as the configuration says. */
  lemma CommitReplacesOnlyWhatItRead(steps: seq<Step>, s: State, job: nat, staleTtl: int)
    requires Run(INITIAL, steps, s) && Enabled(s, WriteCommit(job, staleTtl))
    ensures var j, s' := s.jobs[job], Apply(s, WriteCommit(job, staleTtl));
      var bound := j.commitStage.bound;
      var current, stale := Body(j.project, j.json), Stale(j.project, j.json);
      var was, became := Lookup(s.store, current, s.now), Lookup(s'.store, current, s.now);
      var staleWas, staleBecame := Lookup(s.store, stale, s.now), Lookup(s'.store, stale, s.now);
      var completed := Some(Text(j.completed));
      && (CommitLands(s, j) <==>
            if bound.Current? then was == Some(Text(j.body)) else was.None? && staleWas == Some(Text(j.body)))
      && (!CommitLands(s, j) ==> s'.store == s.store)
      && (CommitLands(s, j) && bound.Current? ==> became == completed)
      && (CommitLands(s, j) && bound.StaleOnly? ==> became.None? && staleBecame == completed)
      && (CommitLands(s, j) && bound.Current? ==>
            staleBecame == if !j.changed then staleWas else if staleTtl > 0 then completed else None)
  {
    var j := s.jobs[job];
    ReachableKeepsInv(steps, s);
    assert JobSane(s.now, j);
    hide Inv;
    hide Run;
    LandsExactly(s, j);
    if CommitLands(s, j) {
      LandedCommit(s, job, staleTtl);
      hide Apply;
    }
  }

  lemma LandsExactly(s: State, j: Job)
    requires j.Committing? && j.commitStage.Writing?
    ensures var was, staleWas := Lookup(s.store, Body(j.project, j.json), s.now), Lookup(s.store, Stale(j.project, j.json), s.now);
      CommitLands(s, j) <==>
        if j.commitStage.bound.Current? then was == Some(Text(j.body)) else was.None? && staleWas == Some(Text(j.body))
  {
    var expected := CommitExpected(j, j.commitStage.bound);
    assert CommitLands(s, j) ==> forall i :: 0 <= i < |expected| ==> Lookup(s.store, expected[i].0, s.now) == expected[i].1;
    assert expected[0].0 == Body(j.project, j.json);
    if j.commitStage.bound.StaleOnly? {
      assert expected[1].0 == Stale(j.project, j.json);
    }
  }
}
