/** Runs of the enrichment protocol in which something undesirable happens. */
module Scenarios {
  import opened Wrappers
  import opened TimedStore
  import opened ProjectKeys
  import opened Enrichment
  import opened Overwrites

  lemma {:induction false} RunConcat(s: State, a: seq<Step>, mid: State, b: seq<Step>, end: State)
    requires Run(s, a, mid) && Run(mid, b, end)
    ensures Run(s, a + b, end)
    decreases |a|
  {
    if a == [] {
      assert a + b == b;
    } else {
      assert (a + b)[1..] == a[1..] + b && (a + b)[0] == a[0];
      RunConcat(Apply(s, a[0]), a[1..], mid, b, end);
    }
  }

  lemma RunOne(s: State, step: Step)
    requires Enabled(s, step)
    ensures Run(s, [step], Apply(s, step))
  {
    assert [step][1..] == [];
  }

  /** One body from upstream: both copies are written and logged. */
  lemma OneBodyFilled(s: State, project: string, json: bool, text: string, ttl: int, staleTtl: int)
    ensures var fill := Fill(project, [(json, text)], ttl, staleTtl, []);
      var body, stale := Body(project, json), Stale(project, json);
      && Enabled(s, fill)
      && Apply(s, fill) == s.(
           store := s.store[body := Entry(s.now + ttl as real, Text(text))][stale := Entry(s.now + staleTtl as real, Text(text))],
           log := s.log + [CopyWrite(body, Fetched, text, s.now, s.now + ttl as real),
                           CopyWrite(stale, Fetched, text, s.now, s.now + staleTtl as real)])
  {
    var a, b := Write(Body(project, json), ttl, Text(text)), Write(Stale(project, json), staleTtl, Text(text));
    var bodies := [(json, text)];
    assert bodies[1..] == [];
    var empty: seq<Write<Key, Value>> := [];
    assert empty + FillWrites(project, bodies, ttl, staleTtl) == [a, b];
    PutTwo(s.store, s.now, a, b);
    LoggedFew(s.log, s.now, a, b, Fetched);
    hide Logged;
    hide PutAll;
  }

  lemma PutTwo(store: Shared, now: real, a: Write<Key, Value>, b: Write<Key, Value>)
    ensures PutAll(store, now, [a, b]) == Put(Put(store, now, a), now, b)
  {
    var first := Put(store, now, a);
    assert [a, b][1..] == [b] && [b][1..] == [];
    hide Put;
    assert PutAll(first, now, [b]) == Put(first, now, b);
    assert PutAll(store, now, [a, b]) == PutAll(first, now, [b]);
  }

  /** A commit that changes the body and makes it ready. */
  function CommitAt(project: string, json: bool, body: string, completed: string, stage: CommitStage): Job {
    Committing(project, json, body, completed, true, true, stage)
  }

  /** The awaits of a commit up to its write, with nobody in between. */
  lemma CommitPrepared(s: State, job: nat, project: string, json: bool, body: string, completed: string, bound: Bound, rounding: Rounding)
    returns (steps: seq<Step>, end: State)
    requires job !in s.jobs && BoundOf(s, CommitAt(project, json, body, completed, Reading)) == Some(bound)
    requires SampleOf(s, BoundKey(CommitAt(project, json, body, completed, Reading), bound), rounding).Some?
    ensures steps == [StartCommit(job, project, json, body, completed, true, true), ReadForCommit(job), SampleForCommit(job, rounding)]
    ensures Run(s, steps, end)
    ensures var begun := CommitAt(project, json, body, completed, Reading);
      end == s.(jobs := s.jobs[job := begun.(commitStage := Writing(bound, SampleOf(s, BoundKey(begun, bound), rounding).value))])
  {
    hide Ttl;
    var start := StartCommit(job, project, json, body, completed, true, true);
    var read, sampling := ReadForCommit(job), SampleForCommit(job, rounding);
    var begun := CommitAt(project, json, body, completed, Reading);
    var s1 := Apply(s, start);
    RunOne(s, start);
    assert BoundOf(s1, s1.jobs[job]) == Some(bound);
    var s2 := Apply(s1, read);
    RunOne(s1, read);
    assert SampleOf(s2, BoundKey(begun, bound), rounding) == SampleOf(s, BoundKey(begun, bound), rounding);
    end := Apply(s2, sampling);
    RunOne(s2, sampling);
    hide Run;
    RunConcat(s, [start], s1, [read], s2);
    RunConcat(s, [start] + [read], s2, [sampling], end);
    steps := [start] + [read] + [sampling];
    assert end.jobs == s.jobs[job := begun.(commitStage := Writing(bound, SampleOf(s, BoundKey(begun, bound), rounding).value))];
  }

  /** A commit that lands at once. */
  lemma CommitDone(s: State, job: nat, staleTtl: int)
    requires Enabled(s, WriteCommit(job, staleTtl)) && s.jobs[job].changed
    requires BoundOf(s, s.jobs[job]) == Some(s.jobs[job].commitStage.bound)
    ensures CommitLands(s, s.jobs[job])
    ensures var j, end := s.jobs[job], Apply(s, WriteCommit(job, staleTtl));
      var Writing(bound, sample) := j.commitStage;
      var key, stale := BoundKey(j, bound), Stale(j.project, j.json);
      && Run(s, [WriteCommit(job, staleTtl)], end)
      && end.now == s.now && end.jobs == s.jobs - {job}
      && key in end.store && end.store[key] == Entry(s.now + sample.ttl as real, Text(j.completed))
      && end.log == s.log + [CopyWrite(key, CommitCause(j), j.completed, s.now, s.now + sample.ttl as real)]
                          + if bound.Current? then [CopyWrite(stale, CommitCause(j), j.completed, s.now, s.now + staleTtl as real)] else []
  {
    var j := s.jobs[job];
    RunOne(s, WriteCommit(job, staleTtl));
    hide Run;
    LandsExactly(s, j);
    LandedCommit(s, job, staleTtl);
    hide CommitLands;
    LandedLog(s, job, staleTtl);
    hide Apply;
  }

  lemma LandedLog(s: State, job: nat, staleTtl: int)
    requires Enabled(s, WriteCommit(job, staleTtl)) && s.jobs[job].changed && CommitLands(s, s.jobs[job])
    ensures var j, end := s.jobs[job], Apply(s, WriteCommit(job, staleTtl));
      var Writing(bound, sample) := j.commitStage;
      var stale := Stale(j.project, j.json);
      && end.now == s.now && end.jobs == s.jobs - {job}
      && end.log == s.log + [CopyWrite(BoundKey(j, bound), CommitCause(j), j.completed, s.now, s.now + sample.ttl as real)]
                          + if bound.Current? then [CopyWrite(stale, CommitCause(j), j.completed, s.now, s.now + staleTtl as real)] else []
  {
    CommitLog(s.log, s.now, s.jobs[job], staleTtl);
    hide CommitLands;
    hide CommitWrites;
    hide Logged;
    hide PutAll;
  }

  /** A body that expires at 11.0, at the instant 0.4. */
  lemma Filled11() returns (steps: seq<Step>, s: State)
    ensures Run(INITIAL, steps, s) && s.now == 0.4 && s.jobs == map[]
    ensures Body("p", true) in s.store && s.store[Body("p", true)] == Entry(11.0, Text("a"))
    ensures |s.log| == 2 && s.log[0].key == Body("p", true) && s.log[0].exp == 11.0
  {
    OneBodyFilled(INITIAL, "p", true, "a", 11, 100);
    var fill := Fill("p", [(true, "a")], 11, 100, []);
    var s1 := Apply(INITIAL, fill);
    RunOne(INITIAL, fill);
    s := Apply(s1, Tick(0.4));
    RunOne(s1, Tick(0.4));
    hide Run;
    RunConcat(INITIAL, [fill], s1, [Tick(0.4)], s);
    steps := [fill] + [Tick(0.4)];
  }

  /** With the nearest second, 10.6 seconds left count as 11: a body that expires at 11.0
      is sampled and replaced at the one instant 0.4, and then expires at 11.4. */
  lemma RoundingUpRestartsLifetimes() returns (steps: seq<Step>, end: State)
    ensures Run(INITIAL, steps, end) && end.now == 0.4
    ensures |end.log| == 4 && end.log[0].key == end.log[2].key == Body("p", true)
    ensures end.log[0].exp == 11.0 && end.log[2].cause.Enriched? && end.log[2].cause.sample.at == end.log[2].at == 0.4
    ensures Body("p", true) in end.store && end.store[Body("p", true)] == Entry(11.4, Text("b"))
  {
    hide Run;
    hide Apply;
    var first, s2 := Filled11();
    FloorIs(11.1, 11);
    assert SampleOf(s2, Body("p", true), Nearest) == Some(Sample(0.4, 11.0, 11, Nearest, 2));
    var prepare, s3 := CommitPrepared(s2, 0, "p", true, "a", "b", Current, Nearest);
    hide SampleOf;
    CommitDone(s3, 0, 100);
    end := Apply(s3, WriteCommit(0, 100));
    RunConcat(INITIAL, first, s2, prepare, s3);
    RunConcat(INITIAL, first + prepare, s3, [WriteCommit(0, 100)], end);
    steps := first + prepare + [WriteCommit(0, 100)];
  }

  /** A 304 reads the stale body of the requested format, and there is no other. */
  lemma RevalidationStarted(s: State, job: nat, project: string, json: bool, body: string)
    requires job !in s.jobs && Lookup(s.store, Stale(project, json), s.now) == Some(Text(body))
    requires Lookup(s.store, Stale(project, !json), s.now).None?
    ensures var start := StartRevalidation(job, project, json, PassThrough);
      && Enabled(s, start) && Run(s, [start], Apply(s, start))
      && Apply(s, start) == s.(jobs := s.jobs[job := Revalidating(project, json, body, None, |s.log|, Republishing)])
  {
    assert TextAt(s, Stale(project, json)) == Some(body) && TextAt(s, Stale(project, !json)) == None;
    RunOne(s, StartRevalidation(job, project, json, PassThrough));
  }

  lemma Republished(s: State, job: nat, ttl: int)
    requires Enabled(s, Republish(job, ttl, [])) && s.jobs[job].other.None?
    ensures var j, body := s.jobs[job], Body(s.jobs[job].project, s.jobs[job].json);
      && Run(s, [Republish(job, ttl, [])], Apply(s, Republish(job, ttl, [])))
      && Apply(s, Republish(job, ttl, [])) == s.(
           store := s.store[body := Entry(s.now + ttl as real, Text(j.body))],
           log := s.log + [CopyWrite(body, Revalidated, j.body, s.now, s.now + ttl as real)],
           jobs := s.jobs[job := j.(revalidateStage := Refreshing(ttl))])
  {
    RunOne(s, Republish(job, ttl, []));
    hide Run;
    RepublishedOne(s, job, ttl);
    OneTextWritten(s, Write(Body(s.jobs[job].project, s.jobs[job].json), ttl, Text(s.jobs[job].body)));
    hide Apply;
    hide WriteAll;
  }

  lemma RepublishedOne(s: State, job: nat, ttl: int)
    requires Enabled(s, Republish(job, ttl, [])) && s.jobs[job].other.None?
    ensures var j := s.jobs[job];
      var w := Write(Body(j.project, j.json), ttl, Text(j.body));
      Apply(s, Republish(job, ttl, [])) == SetJob(WriteAll(s, [w], Revalidated), job, j.(revalidateStage := Refreshing(ttl)))
  {
    var j := s.jobs[job];
    assert RevalidationWrites(j, ttl, []) == [Write(Body(j.project, j.json), ttl, Text(j.body))];
    hide RevalidationWrites;
    hide WriteAll;
  }

  lemma OneTextWritten(s: State, w: Write<Key, Value>)
    requires IsCopy(w.key) && w.value.Text?
    ensures WriteAll(s, [w], Revalidated) == s.(
      store := s.store[w.key := Entry(s.now + w.ttl as real, w.value)],
      log := s.log + [CopyWrite(w.key, Revalidated, w.value.text, s.now, s.now + w.ttl as real)])
  {
    LoggedFew(s.log, s.now, w, w, Revalidated);
    PutOne(s.store, s.now, w);
    hide Logged;
    hide PutAll;
  }

  lemma PutOne(store: Shared, now: real, w: Write<Key, Value>)
    ensures PutAll(store, now, [w]) == Put(store, now, w)
  {
    assert [w][1..] == [];
    hide Put;
  }

  function FirstFill(ttl: int): seq<CopyWrite> {
    [CopyWrite(Body("p", true), Fetched, "a", 0.0, ttl as real), CopyWrite(Stale("p", true), Fetched, "a", 0.0, 100.0)]
  }

  /** A page is filled in, and a replica reads its stale copy for a 304. */
  lemma StaleIsRead(ttl: int) returns (steps: seq<Step>, s: State)
    ensures Run(INITIAL, steps, s) && s.now == 0.0 && s.log == FirstFill(ttl)
    ensures s.store == map[Body("p", true) := Entry(ttl as real, Text("a")), Stale("p", true) := Entry(100.0, Text("a"))]
    ensures s.jobs == map[1 := Revalidating("p", true, "a", None, 2, Republishing)]
  {
    hide Run;
    hide Apply;
    var fill, revalidate := Fill("p", [(true, "a")], ttl, 100, []), StartRevalidation(1, "p", true, PassThrough);
    OneBodyFilled(INITIAL, "p", true, "a", ttl, 100);
    var s1 := Apply(INITIAL, fill);
    RunOne(INITIAL, fill);
    RevalidationStarted(s1, 1, "p", true, "a");
    s := Apply(s1, revalidate);
    RunConcat(INITIAL, [fill], s1, [revalidate], s);
    steps := [fill] + [revalidate];
  }

  /** Then a commit of another replica samples the current copy of that very page. */
  lemma SampledMeanwhile(ttl: int) returns (steps: seq<Step>, s: State)
    requires ttl > 0
    ensures Run(INITIAL, steps, s) && s.now == 0.0 && s.log == FirstFill(ttl)
    ensures s.store == map[Body("p", true) := Entry(ttl as real, Text("a")), Stale("p", true) := Entry(100.0, Text("a"))]
    ensures s.jobs == map[1 := Revalidating("p", true, "a", None, 2, Republishing),
                          2 := CommitAt("p", true, "a", "b", Writing(Current, Sample(0.0, ttl as real, ttl, Down, 2)))]
  {
    hide Run;
    hide Apply;
    var first, s2 := StaleIsRead(ttl);
    FloorIs(ttl as real, ttl);
    assert SampleOf(s2, Body("p", true), Down) == Some(Sample(0.0, ttl as real, ttl, Down, 2));
    var prepare;
    prepare, s := CommitPrepared(s2, 2, "p", true, "a", "b", Current, Down);
    RunConcat(INITIAL, first, s2, prepare, s);
    steps := first + prepare;
  }

  /** One replica reads a stale body for a 304; another replica enriches that very body;
      then the first publishes what it has read. The enrichment is lost. */
  lemma RevalidationLosesAnEnrichment() returns (steps: seq<Step>, end: State)
    ensures Run(INITIAL, steps, end) && |end.log| == 5
    ensures var k := Body("p", true);
      && end.log[2].key == end.log[4].key == k && end.log[3].key != k
      && end.log[2].cause.Enriched? && end.log[2].cause.from == "a" && end.log[2].value == "b"
      && end.log[4].cause.Revalidated? && end.log[4].value == "a"
      && Lookup(end.store, k, end.now) == Some(Text("a"))
  {
    hide Run;
    hide Apply;
    var first, s2 := SampledMeanwhile(10);
    CommitDone(s2, 2, 100);
    var s3 := Apply(s2, WriteCommit(2, 100));
    Republished(s3, 1, 10);
    end := Apply(s3, Republish(1, 10, []));
    RunConcat(INITIAL, first, s2, [WriteCommit(2, 100)], s3);
    RunConcat(INITIAL, first + [WriteCommit(2, 100)], s3, [Republish(1, 10, [])], end);
    steps := first + [WriteCommit(2, 100)] + [Republish(1, 10, [])];
  }

  /** A commit samples 1000 seconds; a 304 gives the same body 5 seconds; the commit lands,
      and the body that was revalidated until 5.0 lives until 1000.0. */
  lemma ShorterLifetimeIsUndone() returns (steps: seq<Step>, end: State)
    ensures Run(INITIAL, steps, end) && end.now == 0.0 && |end.log| == 5
    ensures var k := Body("p", true);
      && end.log[2] == CopyWrite(k, Revalidated, "a", 0.0, 5.0)
      && end.log[3].key == k && end.log[3].cause == Enriched("a", k, Sample(0.0, 1000.0, 1000, Down, 2))
      && k in end.store && end.store[k] == Entry(1000.0, Text("b"))
  {
    hide Run;
    hide Apply;
    var first, s2 := SampledMeanwhile(1000);
    Republished(s2, 1, 5);
    var s3 := Apply(s2, Republish(1, 5, []));
    CommitDone(s3, 2, 100);
    end := Apply(s3, WriteCommit(2, 100));
    RunConcat(INITIAL, first, s2, [Republish(1, 5, [])], s3);
    RunConcat(INITIAL, first + [Republish(1, 5, [])], s3, [WriteCommit(2, 100)], end);
    steps := first + [Republish(1, 5, [])] + [WriteCommit(2, 100)];
  }

  // ------------------------------------------------------------- stale copies overwritten

  const EXPIRED_PAGE := [CopyWrite(Body("p", false), Fetched, "h", 0.0, 10.0), CopyWrite(Stale("p", false), Fetched, "h", 0.0, 100.0)]

  /** A page whose current copy has expired and whose stale copy has not. */
  lemma ExpiredPage() returns (steps: seq<Step>, s: State)
    ensures Run(INITIAL, steps, s)
    ensures s.now == 20.0 && s.log == EXPIRED_PAGE && s.jobs == map[]
    ensures s.store == map[Body("p", false) := Entry(10.0, Text("h")), Stale("p", false) := Entry(100.0, Text("h"))]
  {
    OneBodyFilled(INITIAL, "p", false, "h", 10, 100);
    var fill := Fill("p", [(false, "h")], 10, 100, []);
    var s1 := Apply(INITIAL, fill);
    RunOne(INITIAL, fill);
    s := Apply(s1, Tick(20.0));
    RunOne(s1, Tick(20.0));
    hide Run;
    RunConcat(INITIAL, [fill], s1, [Tick(20.0)], s);
    steps := [fill] + [Tick(20.0)];
  }

  /** A commit enriches the stale copy of the expired page. */
  lemma StaleEnriched(s: State, job: nat) returns (steps: seq<Step>, end: State)
    requires s.now == 20.0 && s.log == EXPIRED_PAGE && job !in s.jobs
    requires s.store == map[Body("p", false) := Entry(10.0, Text("h")), Stale("p", false) := Entry(100.0, Text("h"))]
    ensures Run(s, steps, end) && end.now == 20.0 && end.jobs == s.jobs
    ensures |end.log| == 3 && end.log[..2] == EXPIRED_PAGE
    ensures end.log[2].key == Stale("p", false) && end.log[2].cause.Enriched? && end.log[2].value == "e"
    ensures Stale("p", false) in end.store && end.store[Stale("p", false)] == Entry(100.0, Text("e"))
    ensures Lookup(end.store, Body("p", false), end.now).None?
  {
    hide Run;
    hide Apply;
    var stale := Stale("p", false);
    FloorIs(80.0, 80);
    assert SampleOf(s, stale, Down) == Some(Sample(20.0, 100.0, 80, Down, 2));
    var prepare, s1 := CommitPrepared(s, job, "p", false, "h", "e", StaleOnly, Down);
    CommitDone(s1, job, 100);
    LandedCommit(s1, job, 100);
    end := Apply(s1, WriteCommit(job, 100));
    RunConcat(s, prepare, s1, [WriteCommit(job, 100)], end);
    steps := prepare + [WriteCommit(job, 100)];
    hide SampleOf;
    hide CommitLands;
  }

  /** A 304 reads the other format's stale body and converts it; meanwhile that stale copy
      is enriched; the 304 then puts what it has read back. */
  lemma RestoreLosesAnEnrichment() returns (steps: seq<Step>, s: State)
    ensures Run(INITIAL, steps, s) && Enabled(s, RestoreStale(1, 100)) && s.jobs[1].since == 2
    ensures DiscardsSince(s, Apply(s, RestoreStale(1, 100)).store, Stale("p", false), 2)
  {
    hide Run;
    hide Apply;
    var first, s1 := ExpiredPage();
    var revalidate := StartRevalidation(1, "p", true, ConvertTo("t"));
    ConversionOfStaleStarted(s1);
    var s2 := Apply(s1, revalidate);
    var enrich;
    enrich, s := StaleEnriched(s2, 2);
    RunConcat(INITIAL, first, s1, [revalidate], s2);
    RunConcat(INITIAL, first + [revalidate], s2, enrich, s);
    steps := first + [revalidate] + enrich;
    LastIndexIs(s.log, Stale("p", false), 2);
    RestoreDiscardsExactly(steps, s, 1, 100, Stale("p", false));
    hide DiscardsSince;
  }

  lemma ConversionOfStaleStarted(s: State)
    requires s.now == 20.0 && s.jobs == map[] && |s.log| == 2
    requires s.store == map[Body("p", false) := Entry(10.0, Text("h")), Stale("p", false) := Entry(100.0, Text("h"))]
    ensures var start := StartRevalidation(1, "p", true, ConvertTo("t"));
      && Enabled(s, start) && Run(s, [start], Apply(s, start))
      && Apply(s, start) == s.(jobs := map[1 := Revalidating("p", true, "t", Some("h"), 2, Restoring)])
  {
    assert TextAt(s, Stale("p", true)) == None && TextAt(s, Stale("p", false)) == Some("h");
    RunOne(s, StartRevalidation(1, "p", true, ConvertTo("t")));
  }

  /** A stale copy is enriched while a 304 brings its former body back as the current one;
      a commit of that body then overwrites the stale copy that it has not read. */
  lemma CommitLosesAnEnrichment() returns (steps: seq<Step>, s: State)
    ensures Run(INITIAL, steps, s) && Enabled(s, WriteCommit(3, 100))
    ensures DiscardsUnread(s, Apply(s, WriteCommit(3, 100)).store, Stale("p", false), s.jobs[3].body)
  {
    hide Run;
    hide Apply;
    var first, s1 := ExpiredPage();
    var revalidate := StartRevalidation(1, "p", false, PassThrough);
    RevalidationStarted(s1, 1, "p", false, "h");
    var s2 := Apply(s1, revalidate);
    var enrich, s3 := StaleEnriched(s2, 2);
    RunConcat(INITIAL, first, s1, [revalidate], s2);
    RunConcat(INITIAL, first + [revalidate], s2, enrich, s3);
    var rest;
    rest, s := FormerBodyCommits(s3);
    RunConcat(INITIAL, first + [revalidate] + enrich, s3, rest, s);
    steps := first + [revalidate] + enrich + rest;
    LastIndexIs(s.log, Stale("p", false), 2);
    CommitDiscardsExactly(steps, s, 3, 100, Stale("p", false));
    hide DiscardsUnread;
  }

  lemma FormerBodyCommits(s: State) returns (steps: seq<Step>, end: State)
    requires s.now == 20.0 && s.jobs == map[1 := Revalidating("p", false, "h", None, 2, Republishing)]
    ensures Run(s, steps, end) && end.now == 20.0
    ensures |end.log| == |s.log| + 1 && end.log[..|s.log|] == s.log && end.log[|s.log|].key == Body("p", false)
    ensures end.store == s.store[Body("p", false) := Entry(30.0, Text("h"))]
    ensures 3 in end.jobs && end.jobs[3] == CommitAt("p", false, "h", "b", Writing(Current, Sample(20.0, 30.0, 10, Down, |s.log| + 1)))
  {
    hide Run;
    hide Apply;
    Republished(s, 1, 10);
    var s1 := Apply(s, Republish(1, 10, []));
    FloorIs(10.0, 10);
    assert SampleOf(s1, Body("p", false), Down) == Some(Sample(20.0, 30.0, 10, Down, |s.log| + 1));
    var prepare;
    prepare, end := CommitPrepared(s1, 3, "p", false, "h", "b", Current, Down);
    RunConcat(s, [Republish(1, 10, [])], s1, prepare, end);
    steps := [Republish(1, 10, [])] + prepare;
  }
}
