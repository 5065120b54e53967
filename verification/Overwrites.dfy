/** Which steps throw away an enrichment that they have not read, and exactly when. */
module Overwrites {
  import opened Wrappers
  import opened TimedStore
  import opened ProjectKeys
  import opened Enrichment

  /** The i-th write was an enrichment of this copy, nothing has been written to the copy
      since, it is what readers get, and in the later store they get something else. */
  ghost predicate Discards(s: State, after: Shared, k: Key, i: int) {
    && 0 <= i < |s.log| && s.log[i].key == k && s.log[i].cause.Enriched?
    && (forall j :: i < j < |s.log| ==> s.log[j].key != k)
    && Lookup(s.store, k, s.now) == Some(Text(s.log[i].value))
    && Lookup(after, k, s.now) != Lookup(s.store, k, s.now)
  }

  ghost predicate DiscardsSince(s: State, after: Shared, k: Key, since: nat) {
    exists i :: since <= i && Discards(s, after, k, i)
  }

  /** The last write to a copy is an enrichment, logged from `since` on and still live. */
  predicate EnrichedSince(s: State, k: Key, since: nat) {
    var last := LastIndex(s.log, k);
    last >= since && s.log[last].cause.Enriched? && Live(s.store, k, s.now)
  }

  function LastText(s: State, k: Key): string
    requires LastIndex(s.log, k) >= 0
  {
    s.log[LastIndex(s.log, k)].value
  }

  /** An enrichment is discarded exactly when the last write is one and is not left as it is. */
  lemma DiscardsIff(s: State, after: Shared, k: Key, since: nat)
    requires Tracks(s.store, s.log) && IsCopy(k)
    ensures DiscardsSince(s, after, k, since)
      <==> EnrichedSince(s, k, since) && Lookup(after, k, s.now) != Some(Text(LastText(s, k)))
    ensures EnrichedSince(s, k, since) ==> Lookup(s.store, k, s.now) == Some(Text(LastText(s, k)))
  {
    var last := LastIndex(s.log, k);
    assert Live(s.store, k, s.now) ==> Latest(s.log, k).Some? && Lookup(s.store, k, s.now) == Some(Text(s.log[last].value));
    forall i | Discards(s, after, k, i)
      ensures i == last
    {
      LastIndexIs(s.log, k, i);
    }
    if EnrichedSince(s, k, since) && Lookup(after, k, s.now) != Some(Text(LastText(s, k))) {
      assert Discards(s, after, k, last);
    }
  }

  lemma ReachableTracks(steps: seq<Step>, s: State)
    requires Run(INITIAL, steps, s)
    ensures Tracks(s.store, s.log) && JobsSane(s)
  {
    ReachableKeepsInv(steps, s);
  }

  // --------------------------------------------------------------------------- the 304s

  /** What a 304 publishes under a key. */
  function PublishedText(j: Job, k: Key): Option<string>
    requires j.Revalidating?
  {
    if k == Body(j.project, j.json) then Some(j.body)
    else if k == Body(j.project, !j.json) && j.other.Some? && j.other.value != "" then j.other
    else None
  }

  lemma RevalidationLastWrites(j: Job, ttl: int, validators: seq<Write<Key, Value>>, k: Key)
    requires j.Revalidating? && Validators(validators, j.project) && IsCopy(k)
    ensures var writes := RevalidationWrites(j, ttl, validators); var i := LastWrite(writes, k);
      if PublishedText(j, k).Some? then i >= 0 && writes[i] == Write(k, ttl, Text(PublishedText(j, k).value)) else i == -1
  {
    var writes := RevalidationWrites(j, ttl, validators);
    forall i | 1 <= i <= |validators|
      ensures writes[i].key != k
    {
      assert writes[i] == validators[i - 1] && IsValidator(validators[i - 1], j.project);
    }
    LastWriteIs(writes, k, if k == Body(j.project, j.json) then 0 else if PublishedText(j, k).Some? then |validators| + 1 else -1);
  }

  /** In every run and for every copy: a 304 that publishes discards an enrichment made
      since it read the stale bodies if and only if it publishes under that copy, the last
      write there was an enrichment, after that read and still live, and the 304 does not
      publish that very text for a positive time. */
  lemma RepublishDiscardsExactly(steps: seq<Step>, s: State, job: nat, ttl: int, validators: seq<Write<Key, Value>>, k: Key)
    requires Run(INITIAL, steps, s) && Enabled(s, Republish(job, ttl, validators)) && IsCopy(k)
    ensures var j, after := s.jobs[job], Apply(s, Republish(job, ttl, validators)).store;
      var published := PublishedText(j, k);
      && (published.Some? ==> Lookup(after, k, s.now) == if ttl > 0 then Some(Text(published.value)) else None)
      && (DiscardsSince(s, after, k, j.since) <==>
            published.Some? && EnrichedSince(s, k, j.since) && (ttl <= 0 || LastText(s, k) != published.value))
  {
    ReachableTracks(steps, s);
    var j, after := s.jobs[job], Apply(s, Republish(job, ttl, validators)).store;
    RevalidationLastWrites(j, ttl, validators, k);
    LastWriteWins(s.store, s.now, RevalidationWrites(j, ttl, validators), k);
    DiscardsIff(s, after, k, j.since);
    hide Run;
    hide RevalidationWrites;
    hide DiscardsSince;
    hide Tracks;
    hide Logged;
    hide LastIndex;
  }

  /** The same of the earlier write of a 304 that converts the other format's stale body: it
      puts the stale body that it read back, and so discards an enrichment of that one. */
  lemma RestoreDiscardsExactly(steps: seq<Step>, s: State, job: nat, staleTtl: int, k: Key)
    requires Run(INITIAL, steps, s) && Enabled(s, RestoreStale(job, staleTtl)) && IsCopy(k)
    ensures var j, after := s.jobs[job], Apply(s, RestoreStale(job, staleTtl)).store;
      DiscardsSince(s, after, k, j.since) <==>
        k == Stale(j.project, !j.json) && EnrichedSince(s, k, j.since) && (staleTtl <= 0 || LastText(s, k) != j.other.value)
  {
    ReachableTracks(steps, s);
    var j, after := s.jobs[job], Apply(s, RestoreStale(job, staleTtl)).store;
    var writes := [Write(Stale(j.project, !j.json), staleTtl, Text(j.other.value))];
    LastWriteWins(s.store, s.now, writes, k);
    LastWriteIs(writes, k, if k == Stale(j.project, !j.json) then 0 else -1);
    DiscardsIff(s, after, k, j.since);
    hide Run;
    hide DiscardsSince;
    hide Tracks;
    hide Logged;
    hide LastIndex;
  }

  // ------------------------------------------------------------------------- conversions

  /** In every run and for every copy: a conversion, which compares its source only,
      discards an enrichment of its target if and only if it lands, writes that copy, the
      last write there was an enrichment, still live, and it was another text. */
  lemma ConversionDiscardsExactly(steps: seq<Step>, s: State, job: nat, k: Key)
    requires Run(INITIAL, steps, s) && Enabled(s, PublishConversion(job)) && IsCopy(k)
    ensures var j, after := s.jobs[job], Apply(s, PublishConversion(job)).store;
      DiscardsSince(s, after, k, 0) <==>
        && Lookup(s.store, Body(j.project, !j.json), s.now) == Some(Text(j.source))
        && WritesTo(s, PublishConversion(job), k) && EnrichedSince(s, k, 0) && LastText(s, k) != j.target
  {
    ReachableTracks(steps, s);
    var j, after := s.jobs[job], Apply(s, PublishConversion(job)).store;
    var Publishing(x, y) := j.convertStage;
    assert JobSane(s.now, j);
    ConversionLandsExactly(s, j);
    ConversionPuts(s, job, k);
    DiscardsIff(s, after, k, 0);
    hide Run;
    hide Apply;
    hide ConversionLands;
    hide DiscardsSince;
    hide Tracks;
    hide LastIndex;
  }

  lemma ConversionLandsExactly(s: State, j: Job)
    requires j.Converting?
    ensures ConversionLands(s, j) <==> Lookup(s.store, Body(j.project, !j.json), s.now) == Some(Text(j.source))
  {
    var expected := [(Body(j.project, !j.json), Some(Text(j.source)))];
    assert ConversionLands(s, j) ==> Lookup(s.store, expected[0].0, s.now) == expected[0].1;
  }

  /** What readers of a copy get after a conversion. */
  lemma ConversionPuts(s: State, job: nat, k: Key)
    requires Enabled(s, PublishConversion(job)) && JobSane(s.now, s.jobs[job]) && IsCopy(k)
    ensures var j, after := s.jobs[job], Apply(s, PublishConversion(job)).store;
      Lookup(after, k, s.now)
        == if ConversionLands(s, j) && WritesTo(s, PublishConversion(job), k) then Some(Text(j.target)) else Lookup(s.store, k, s.now)
  {
    var j := s.jobs[job];
    var Publishing(x, y) := j.convertStage;
    var writes := ConversionWrites(j, x, y);
    LastWriteWins(s.store, s.now, writes, k);
    LastWriteIs(writes, k, if k == Body(j.project, j.json) then 0 else if y.Some? && k == Stale(j.project, j.json) then 1 else -1);
    hide Logged;
    hide PutAll;
    hide LastWrite;
    hide ConversionLands;
  }

  // ----------------------------------------------------------------------------- commits

  /** A commit discards an enrichment other than the body that it enriches. */
  ghost predicate DiscardsUnread(s: State, after: Shared, k: Key, body: string) {
    exists i :: Discards(s, after, k, i) && s.log[i].value != body
  }

  /** In every run and for every copy: a commit discards an enrichment other than the body
      it enriches if and only if the copy is the stale one beside the current copy that
      the commit finds as it read it and changes, the last write to that stale copy was an
      enrichment, still live, of another text, and the commit does not leave that text. */
  lemma CommitDiscardsExactly(steps: seq<Step>, s: State, job: nat, staleTtl: int, k: Key)
    requires Run(INITIAL, steps, s) && Enabled(s, WriteCommit(job, staleTtl)) && IsCopy(k)
    ensures var j, after := s.jobs[job], Apply(s, WriteCommit(job, staleTtl)).store;
      DiscardsUnread(s, after, k, j.body) <==>
        && k == Stale(j.project, j.json) && j.commitStage.bound.Current? && j.changed
        && Lookup(s.store, Body(j.project, j.json), s.now) == Some(Text(j.body))
        && EnrichedSince(s, k, 0) && LastText(s, k) != j.body && (staleTtl <= 0 || LastText(s, k) != j.completed)
  {
    ReachableTracks(steps, s);
    var j, after := s.jobs[job], Apply(s, WriteCommit(job, staleTtl)).store;
    LandsExactly(s, j);
    CommitPuts(s, job, staleTtl, k);
    UnreadIff(s, after, k, j.body);
    hide Run;
    hide Apply;
    hide CommitLands;
    hide DiscardsUnread;
    hide LastIndex;
  }

  lemma UnreadIff(s: State, after: Shared, k: Key, body: string)
    requires Tracks(s.store, s.log) && IsCopy(k)
    ensures DiscardsUnread(s, after, k, body) <==>
      EnrichedSince(s, k, 0) && LastText(s, k) != body && Lookup(after, k, s.now) != Some(Text(LastText(s, k)))
    ensures EnrichedSince(s, k, 0) ==> Lookup(s.store, k, s.now) == Some(Text(LastText(s, k)))
  {
    DiscardsIff(s, after, k, 0);
    forall i | Discards(s, after, k, i)
      ensures i == LastIndex(s.log, k)
    {
      LastIndexIs(s.log, k, i);
    }
  }

  lemma CommitLastWrite(j: Job, bound: Bound, ttl: int, staleTtl: int, k: Key)
    requires j.Committing? && IsCopy(k)
    ensures var writes := CommitWrites(j, bound, ttl, staleTtl);
      var i, bounded := LastWrite(writes, k), k == BoundKey(j, bound);
      if j.changed && (bounded || (bound.Current? && k == Stale(j.project, j.json)))
      then i >= 0 && writes[i] == Write(k, if bounded then ttl else staleTtl, Text(j.completed))
      else i == -1
  {
    var bodies, markers := CommitBodies(j, bound, ttl, staleTtl), CommitMarkers(j, ttl, staleTtl);
    MarkersOnly(j, ttl, staleTtl);
    assert forall i :: 0 <= i < |markers| ==> markers[i] in markers;
    hide CommitMarkers;
    LastWriteBefore(bodies, markers, k);
    LastWriteIs(bodies, k, if !j.changed then -1 else if k == BoundKey(j, bound) then 0
                           else if bound.Current? && k == Stale(j.project, j.json) then 1 else -1);
    hide LastWrite;
  }

  /** What readers of a copy get after a commit. */
  lemma CommitPuts(s: State, job: nat, staleTtl: int, k: Key)
    requires Enabled(s, WriteCommit(job, staleTtl)) && IsCopy(k)
    ensures var j, after := s.jobs[job], Apply(s, WriteCommit(job, staleTtl)).store;
      var Writing(bound, sample) := j.commitStage;
      var ttl := if k == BoundKey(j, bound) then sample.ttl else staleTtl;
      Lookup(after, k, s.now)
        == if CommitLands(s, j) && j.changed && WritesTo(s, WriteCommit(job, staleTtl), k)
           then if ttl > 0 then Some(Text(j.completed)) else None
           else Lookup(s.store, k, s.now)
  {
    var j := s.jobs[job];
    var Writing(bound, sample) := j.commitStage;
    LastWriteWins(s.store, s.now, CommitWrites(j, bound, sample.ttl, staleTtl), k);
    CommitLastWrite(j, bound, sample.ttl, staleTtl, k);
    hide CommitWrites;
    hide Logged;
    hide PutAll;
    hide LastWrite;
    hide CommitLands;
    hide BoundKey;
  }

  // ------------------------------------------------------------------- there is no other

  /** The steps by which readers of a copy may come to get something else: its eviction, a
      fetched page, and the four kinds of write above. */
  predicate Touches(s: State, step: Step, k: Key)
    requires Enabled(s, step) && IsCopy(k)
  {
    match step
    case Evict(key) => key == k
    case Fill(project, bodies, _, _, _) => k.project == project && exists i :: 0 <= i < |bodies| && bodies[i].0 == k.json
    case WriteCommit(job, _) => s.jobs[job].changed && CommitLands(s, s.jobs[job]) && WritesTo(s, step, k)
    case PublishConversion(job) => ConversionLands(s, s.jobs[job]) && WritesTo(s, step, k)
    case RestoreStale(job, _) => k == Stale(s.jobs[job].project, !s.jobs[job].json)
    case Republish(job, _, _) => PublishedText(s.jobs[job], k).Some?
    case _ => false
  }

  lemma {:induction false} FillTouches(project: string, bodies: seq<(bool, string)>, ttl: int, staleTtl: int, k: Key)
    requires IsCopy(k) && !(k.project == project && exists i :: 0 <= i < |bodies| && bodies[i].0 == k.json)
    ensures forall w <- FillWrites(project, bodies, ttl, staleTtl) :: w.key != k
    decreases |bodies|
  {
    if bodies != [] {
      var rest := bodies[1..];
      assert k.project == project ==> bodies[0].0 != k.json && forall i :: 0 <= i < |rest| ==> rest[i] == bodies[i + 1];
      FillTouches(project, rest, ttl, staleTtl, k);
    }
  }

  lemma FillLeaves(s: State, project: string, bodies: seq<(bool, string)>, ttl: int, staleTtl: int,
                   validators: seq<Write<Key, Value>>, k: Key)
    requires Validators(validators, project) && IsCopy(k)
    requires !(k.project == project && exists i :: 0 <= i < |bodies| && bodies[i].0 == k.json)
    ensures Lookup(PutAll(s.store, s.now, validators + FillWrites(project, bodies, ttl, staleTtl)), k, s.now) == Lookup(s.store, k, s.now)
  {
    var fills := FillWrites(project, bodies, ttl, staleTtl);
    FillTouches(project, bodies, ttl, staleTtl, k);
    var writes := validators + fills;
    forall i | 0 <= i < |writes|
      ensures writes[i].key != k
    {
      if i < |validators| {
        assert IsValidator(validators[i], project);
      } else {
        assert writes[i] == fills[i - |validators|] && fills[i - |validators|] in fills;
      }
    }
    LastWriteIs(writes, k, -1);
    LastWriteWins(s.store, s.now, writes, k);
  }

  lemma OneWriteLeaves(s: State, w: Write<Key, Value>, k: Key)
    requires w.key != k
    ensures Lookup(PutAll(s.store, s.now, [w]), k, s.now) == Lookup(s.store, k, s.now)
  {
    LastWriteIs([w], k, -1);
    LastWriteWins(s.store, s.now, [w], k);
  }

  /** No other step changes what readers of a copy get, so none discards an enrichment. */
  lemma OthersDiscardNothing(steps: seq<Step>, s: State, step: Step, k: Key)
    requires Run(INITIAL, steps, s) && Enabled(s, step) && IsCopy(k) && !Touches(s, step, k)
    ensures Lookup(Apply(s, step).store, k, s.now) == Lookup(s.store, k, s.now)
    ensures !DiscardsSince(s, Apply(s, step).store, k, 0)
  {
    ReachableTracks(steps, s);
    hide Run;
    UntouchedStays(s, step, k);
    hide Apply;
    hide Touches;
    DiscardsIff(s, Apply(s, step).store, k, 0);
    hide DiscardsSince;
    hide Tracks;
  }

  lemma UntouchedStays(s: State, step: Step, k: Key)
    requires JobsSane(s) && Enabled(s, step) && IsCopy(k) && !Touches(s, step, k)
    ensures Lookup(Apply(s, step).store, k, s.now) == Lookup(s.store, k, s.now)
  {
    match step {
      case Fill(project, bodies, ttl, staleTtl, validators) => FillLeaves(s, project, bodies, ttl, staleTtl, validators, k);
      case Miss(project, ttl) => OneWriteLeaves(s, Write(NotFound(project), ttl, Text("1")), k);
      case WriteCommit(job, staleTtl) => CommitPuts(s, job, staleTtl, k);
      case PublishConversion(job) =>
        assert JobSane(s.now, s.jobs[job]);
        ConversionPuts(s, job, k);
      case RestoreStale(job, staleTtl) =>
        OneWriteLeaves(s, Write(Stale(s.jobs[job].project, !s.jobs[job].json), staleTtl, Text(s.jobs[job].other.value)), k);
      case Republish(job, ttl, validators) =>
        RevalidationLastWrites(s.jobs[job], ttl, validators, k);
        LastWriteWins(s.store, s.now, RevalidationWrites(s.jobs[job], ttl, validators), k);
      case RefreshReady(job, staleTtl) =>
        var j := s.jobs[job];
        OneWriteLeaves(s, Write(Ready(j.project, j.json), Max(staleTtl, j.revalidateStage.ttl), Digest(j.body)), k);
      case _ =>
    }
    hide PutAll;
    hide Logged;
    hide RevalidationWrites;
    hide CommitLands;
    hide ConversionLands;
    hide SampleOf;
    hide BoundOf;
  }
}
