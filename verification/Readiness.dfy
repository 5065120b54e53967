/** What commits, revalidations and fills leave behind for those who come after: the phase
    markers, and with them the lifetimes that responses announce. */
module Readiness {
  import opened Wrappers
  import opened TimedStore
  import opened ProjectKeys
  import opened Enrichment
  import opened Overwrites
  import Scenarios

  // --------------------------------------------------------------------------- commits

  /** The entry of a marker that was set now. */
  function Marked(s: State, ttl: int, staleTtl: int, body: string): Entry<Value> {
    Entry(s.now + (if staleTtl > ttl then staleTtl else ttl) as real, Digest(body))
  }

  lemma MarkerLastWrites(j: Job, bound: Bound, ttl: int, staleTtl: int)
    requires j.Committing?
    ensures var writes := CommitWrites(j, bound, ttl, staleTtl);
      var d, r := LastWrite(writes, Discovered(j.project, j.json)), LastWrite(writes, Ready(j.project, j.json));
      var markerTtl := if staleTtl > ttl then staleTtl else ttl;
      && d >= 0 && writes[d].ttl == markerTtl && writes[d].value == Digest(j.completed)
      && if j.ready then r >= 0 && writes[r].ttl == markerTtl && writes[r].value == Digest(j.completed) else r == -1
  {
    var bodies, markers := CommitBodies(j, bound, ttl, staleTtl), CommitMarkers(j, ttl, staleTtl);
    assert forall i :: 0 <= i < |bodies| ==> IsCopy(bodies[i].key);
    hide CommitBodies;
    hide LastWrite;
    var writes := CommitWrites(j, bound, ttl, staleTtl);
    assert |writes| == |bodies| + |markers| && forall n :: 0 <= n < |bodies| ==> writes[n] == bodies[n];
    assert writes[|bodies|] == markers[0] && (j.ready ==> writes[|bodies| + 1] == markers[1]);
    hide CommitWrites;
    LastWriteIs(writes, Discovered(j.project, j.json), |bodies|);
    LastWriteIs(writes, Ready(j.project, j.json), if j.ready then |bodies| + 1 else -1);
  }

  /** In every run: a commit that lands leaves the digest of its body as discovered, and as
      ready if it is a ready one, for the stale lifetime or for the sampled one, whichever
      is longer; a commit that is not ready leaves the ready marker as it was. */
  lemma CommitLeavesMarkers(steps: seq<Step>, s: State, job: nat, staleTtl: int)
    requires Run(INITIAL, steps, s) && Enabled(s, WriteCommit(job, staleTtl))
    ensures var j, after := s.jobs[job], Apply(s, WriteCommit(job, staleTtl)).store;
      var Writing(bound, x) := j.commitStage;
      var discovered, ready := Discovered(j.project, j.json), Ready(j.project, j.json);
      if !CommitLands(s, j) then after == s.store
      else
        && discovered in after && after[discovered] == Marked(s, x.ttl, staleTtl, j.completed)
        && if j.ready then ready in after && after[ready] == Marked(s, x.ttl, staleTtl, j.completed)
           else (ready in after <==> ready in s.store) && (ready in after ==> after[ready] == s.store[ready])
  {
    var j := s.jobs[job];
    var Writing(bound, x) := j.commitStage;
    hide CommitLands;
    hide Logged;
    hide Run;
    hide PutAll;
    hide LastWrite;
    hide CommitWrites;
    if CommitLands(s, j) {
      MarkersArePut(s, j, bound, x.ttl, staleTtl);
    }
  }

  lemma MarkersArePut(s: State, j: Job, bound: Bound, ttl: int, staleTtl: int)
    requires j.Committing?
    ensures var after := PutAll(s.store, s.now, CommitWrites(j, bound, ttl, staleTtl));
      var discovered, ready := Discovered(j.project, j.json), Ready(j.project, j.json);
      && discovered in after && after[discovered] == Marked(s, ttl, staleTtl, j.completed)
      && if j.ready then ready in after && after[ready] == Marked(s, ttl, staleTtl, j.completed)
         else (ready in after <==> ready in s.store) && (ready in after ==> after[ready] == s.store[ready])
  {
    hide PutAll;
    hide LastWrite;
    hide CommitWrites;
    var writes := CommitWrites(j, bound, ttl, staleTtl);
    LastWriteWins(s.store, s.now, writes, Discovered(j.project, j.json));
    LastWriteWins(s.store, s.now, writes, Ready(j.project, j.json));
    MarkerLastWrites(j, bound, ttl, staleTtl);
  }

  /** The announced lifetime, where the ready marker outlives the body. */
  lemma AnnouncedExactly(s: State, project: string, json: bool, body: string, rounding: Rounding, n: int)
    requires Ready(project, json) in s.store && s.store[Ready(project, json)].value == Digest(body)
    requires Body(project, json) in s.store && s.store[Body(project, json)].value == Text(body)
    requires s.now < s.store[Body(project, json)].exp <= s.store[Ready(project, json)].exp
    ensures ResponseTtl(s, project, json, body, rounding) == Some(n) <==> Rounds(s.store[Body(project, json)].exp - s.now, rounding, n)
  {
    TtlIfValuesExact(s.store, Ready(project, json), Digest(body), Body(project, json), Text(body), s.now, rounding, n);
    hide Rounds;
  }

  /** In every run: once a ready commit of a current body has landed and changed it, readers
      are told the sampled number of seconds, on whichever backend. */
  lemma ReadyCommitIsAnnounced(steps: seq<Step>, s: State, job: nat, staleTtl: int, rounding: Rounding)
    requires Run(INITIAL, steps, s) && Enabled(s, WriteCommit(job, staleTtl)) && CommitLands(s, s.jobs[job])
    requires s.jobs[job].ready && s.jobs[job].changed && s.jobs[job].commitStage.bound.Current?
    ensures var j, s' := s.jobs[job], Apply(s, WriteCommit(job, staleTtl));
      ResponseTtl(s', j.project, j.json, j.completed, rounding) == Some(j.commitStage.sample.ttl)
  {
    var j, s' := s.jobs[job], Apply(s, WriteCommit(job, staleTtl));
    ReachableKeepsInv(steps, s);
    assert JobSane(s.now, j);
    hide Inv;
    CommitLeavesMarkers(steps, s, job, staleTtl);
    LandedCommit(s, job, staleTtl);
    hide Run;
    hide Apply;
    hide CommitLands;
    AnnouncedExactly(s', j.project, j.json, j.completed, rounding, j.commitStage.sample.ttl);
    hide ResponseTtl;
  }

  /** A commit with nobody in between: whoever has a current body with a second left can
      make it ready in four steps, and readers are told so. */
  lemma UndisturbedCommitIsAnnounced(steps: seq<Step>, s: State, job: nat, project: string, json: bool, body: string, completed: string,
                                     staleTtl: int, rounding: Rounding) returns (end: State)
    requires Run(INITIAL, steps, s) && job !in s.jobs && Lookup(s.store, Body(project, json), s.now) == Some(Text(body))
    requires SampleOf(s, Body(project, json), rounding).Some?
    ensures var commit := [StartCommit(job, project, json, body, completed, true, true), ReadForCommit(job),
                           SampleForCommit(job, rounding), WriteCommit(job, staleTtl)];
      Run(s, commit, end)
    ensures ResponseTtl(end, project, json, completed, rounding) == Some(SampleOf(s, Body(project, json), rounding).value.ttl)
  {
    hide Run;
    hide Apply;
    hide SampleOf;
    assert BoundOf(s, Scenarios.CommitAt(project, json, body, completed, Reading)) == Some(Current);
    var prepare, s1 := Scenarios.CommitPrepared(s, job, project, json, body, completed, Current, rounding);
    Scenarios.CommitDone(s1, job, staleTtl);
    end := Apply(s1, WriteCommit(job, staleTtl));
    Scenarios.RunConcat(s, prepare, s1, [WriteCommit(job, staleTtl)], end);
    Scenarios.RunConcat(INITIAL, steps, s, prepare, s1);
    ReadyCommitIsAnnounced(steps + prepare, s1, job, staleTtl, rounding);
    assert prepare + [WriteCommit(job, staleTtl)] == [StartCommit(job, project, json, body, completed, true, true), ReadForCommit(job),
                                                      SampleForCommit(job, rounding), WriteCommit(job, staleTtl)];
    hide ResponseTtl;
    hide CommitLands;
  }

  // --------------------------------------------------------------------------- the 304s

  /** In every run: after a 304 the ready marker is set anew exactly when it was live, for
      the very body that the 304 published and that is still current. */
  lemma RefreshLeavesMarker(steps: seq<Step>, s: State, job: nat, staleTtl: int)
    requires Run(INITIAL, steps, s) && Enabled(s, RefreshReady(job, staleTtl))
    ensures var j, after := s.jobs[job], Apply(s, RefreshReady(job, staleTtl)).store;
      var ready, body := Ready(j.project, j.json), Body(j.project, j.json);
      after == if Lookup(s.store, body, s.now) == Some(Text(j.body)) && Lookup(s.store, ready, s.now) == Some(Digest(j.body))
               then s.store[ready := Marked(s, j.revalidateStage.ttl, staleTtl, j.body)]
               else s.store
  {
    var j := s.jobs[job];
    var ready, body := Ready(j.project, j.json), Body(j.project, j.json);
    var expected := [(body, Some(Text(j.body))), (ready, Some(Digest(j.body)))];
    assert Unchanged(s.store, s.now, expected) ==>
      Lookup(s.store, expected[0].0, s.now) == expected[0].1 && Lookup(s.store, expected[1].0, s.now) == expected[1].1;
    var w := Write(ready, Max(staleTtl, j.revalidateStage.ttl), Digest(j.body));
    Scenarios.PutOne(s.store, s.now, w);
    hide PutAll;
    hide Run;
    hide Logged;
  }

  /** What a 304 publishes lives for the lifetime that upstream gives. */
  lemma RepublishPuts(s: State, job: nat, ttl: int, validators: seq<Write<Key, Value>>, k: Key)
    requires Enabled(s, Republish(job, ttl, validators)) && IsCopy(k) && PublishedText(s.jobs[job], k).Some?
    ensures var j, after := s.jobs[job], Apply(s, Republish(job, ttl, validators)).store;
      k in after && after[k] == Entry(s.now + ttl as real, Text(PublishedText(j, k).value))
  {
    RevalidationLastWrites(s.jobs[job], ttl, validators, k);
    LastWriteWins(s.store, s.now, RevalidationWrites(s.jobs[job], ttl, validators), k);
    hide RevalidationWrites;
    hide PutAll;
    hide Logged;
  }

  lemma RepublishSpares(s: State, job: nat, ttl: int, validators: seq<Write<Key, Value>>, k: Key)
    requires Enabled(s, Republish(job, ttl, validators)) && k.Ready?
    ensures var after := Apply(s, Republish(job, ttl, validators)).store;
      (k in after <==> k in s.store) && (k in after ==> after[k] == s.store[k])
  {
    var writes := RevalidationWrites(s.jobs[job], ttl, validators);
    forall i | 0 <= i < |writes|
      ensures writes[i].key != k
    {
      if 1 <= i <= |validators| {
        assert writes[i] == validators[i - 1] && IsValidator(validators[i - 1], s.jobs[job].project);
      }
    }
    LastWriteIs(writes, k, -1);
    LastWriteWins(s.store, s.now, writes, k);
  }

  /** In every run: a 304 that publishes a body with a live ready marker, and is not
      disturbed before it refreshes the marker, makes readers be told its lifetime. */
  lemma RevalidationIsAnnounced(steps: seq<Step>, s: State, job: nat, ttl: int, validators: seq<Write<Key, Value>>, staleTtl: int,
                                rounding: Rounding)
    requires Run(INITIAL, steps, s) && Enabled(s, Republish(job, ttl, validators)) && ttl > 0
    requires Lookup(s.store, Ready(s.jobs[job].project, s.jobs[job].json), s.now) == Some(Digest(s.jobs[job].body))
    ensures var s' := Apply(s, Republish(job, ttl, validators));
      Enabled(s', RefreshReady(job, staleTtl))
      && ResponseTtl(Apply(s', RefreshReady(job, staleTtl)), s.jobs[job].project, s.jobs[job].json, s.jobs[job].body, rounding) == Some(ttl)
  {
    hide Run;
    hide Apply;
    hide ResponseTtl;
    var j, s' := s.jobs[job], Apply(s, Republish(job, ttl, validators));
    Scenarios.RunOne(s, Republish(job, ttl, validators));
    Scenarios.RunConcat(INITIAL, steps, s, [Republish(job, ttl, validators)], s');
    RepublishPuts(s, job, ttl, validators, Body(j.project, j.json));
    RepublishSpares(s, job, ttl, validators, Ready(j.project, j.json));
    RepublishGoesOn(s, job, ttl, validators);
    RefreshLeavesMarker(steps + [Republish(job, ttl, validators)], s', job, staleTtl);
    RefreshTakesNoTime(s', job, staleTtl);
    AnnouncedExactly(Apply(s', RefreshReady(job, staleTtl)), j.project, j.json, j.body, rounding, ttl);
  }

  lemma RepublishGoesOn(s: State, job: nat, ttl: int, validators: seq<Write<Key, Value>>)
    requires Enabled(s, Republish(job, ttl, validators))
    ensures var s' := Apply(s, Republish(job, ttl, validators));
      s'.now == s.now && job in s'.jobs && s'.jobs[job] == s.jobs[job].(revalidateStage := Refreshing(ttl))
  {
    hide WriteAll;
  }

  lemma RefreshTakesNoTime(s: State, job: nat, staleTtl: int)
    requires Enabled(s, RefreshReady(job, staleTtl))
    ensures Apply(s, RefreshReady(job, staleTtl)).now == s.now
  {
    hide WriteAll;
  }

  // ------------------------------------------------------------------ fetched from upstream

  lemma {:induction false} FillLastWrite(project: string, bodies: seq<(bool, string)>, ttl: int, staleTtl: int, i: nat, k: Key)
    requires i < |bodies| && (k == Body(project, bodies[i].0) || k == Stale(project, bodies[i].0))
    requires forall n :: i < n < |bodies| ==> bodies[n].0 != bodies[i].0
    ensures var writes := FillWrites(project, bodies, ttl, staleTtl); var at := LastWrite(writes, k);
      at >= 0 && writes[at] == Write(k, if k.Body? then ttl else staleTtl, Text(bodies[i].1))
    decreases |bodies|
  {
    var writes, rest := FillWrites(project, bodies, ttl, staleTtl), FillWrites(project, bodies[1..], ttl, staleTtl);
    forall n | 0 <= n < |bodies| - 1
      ensures bodies[1..][n] == bodies[n + 1] && (i <= n ==> bodies[1..][n].0 != bodies[i].0)
    {
      assert bodies[n + 1].0 != bodies[i].0 || n + 1 <= i;
    }
    if i == 0 {
      FillTouches(project, bodies[1..], ttl, staleTtl, k);
      assert forall n :: 2 <= n < |writes| ==> writes[n] == rest[n - 2] && rest[n - 2] in rest;
      LastWriteIs(writes, k, if k.Body? then 0 else 1);
    } else {
      FillLastWrite(project, bodies[1..], ttl, staleTtl, i - 1, k);
      var at := LastWrite(rest, k);
      assert forall n :: 2 <= n < |writes| ==> writes[n] == rest[n - 2];
      LastWriteIs(writes, k, at + 2);
    }
  }

  /** A fetched page is there in both copies, for their lifetimes, and a 404 is remembered. */
  lemma UpstreamIsStored(s: State, project: string, bodies: seq<(bool, string)>, ttl: int, staleTtl: int,
                         validators: seq<Write<Key, Value>>, i: nat)
    requires Enabled(s, Fill(project, bodies, ttl, staleTtl, validators))
    requires i < |bodies| && forall n :: i < n < |bodies| ==> bodies[n].0 != bodies[i].0
    ensures var after := Apply(s, Fill(project, bodies, ttl, staleTtl, validators)).store;
      var body, stale := Body(project, bodies[i].0), Stale(project, bodies[i].0);
      && body in after && after[body] == Entry(s.now + ttl as real, Text(bodies[i].1))
      && stale in after && after[stale] == Entry(s.now + staleTtl as real, Text(bodies[i].1))
    ensures Apply(s, Miss(project, ttl)).store == s.store[NotFound(project) := Entry(s.now + ttl as real, Text("1"))]
  {
    StoredCopy(s, project, bodies, ttl, staleTtl, validators, i, Body(project, bodies[i].0));
    StoredCopy(s, project, bodies, ttl, staleTtl, validators, i, Stale(project, bodies[i].0));
    Scenarios.PutOne(s.store, s.now, Write(NotFound(project), ttl, Text("1")));
    hide PutAll;
    hide Logged;
  }

  lemma StoredCopy(s: State, project: string, bodies: seq<(bool, string)>, ttl: int, staleTtl: int,
                   validators: seq<Write<Key, Value>>, i: nat, k: Key)
    requires i < |bodies| && (k == Body(project, bodies[i].0) || k == Stale(project, bodies[i].0))
    requires forall n :: i < n < |bodies| ==> bodies[n].0 != bodies[i].0
    ensures var after := PutAll(s.store, s.now, validators + FillWrites(project, bodies, ttl, staleTtl));
      k in after && after[k] == Entry(s.now + (if k.Body? then ttl else staleTtl) as real, Text(bodies[i].1))
  {
    var fills := FillWrites(project, bodies, ttl, staleTtl);
    var writes := validators + fills;
    FillLastWrite(project, bodies, ttl, staleTtl, i, k);
    var at := LastWrite(fills, k);
    assert forall n :: |validators| <= n < |writes| ==> writes[n] == fills[n - |validators|];
    LastWriteIs(writes, k, |validators| + at);
    LastWriteWins(s.store, s.now, writes, k);
  }
}
