/** Runs of one process in which a conversion throws an enrichment away, or undoes a shorter
    lifetime, although commits and 304s keep to the fill lock. */
module LockedScenario {
  import opened Wrappers
  import opened TimedStore
  import opened ProjectKeys
  import opened Enrichment
  import opened Lifetimes
  import opened Overwrites
  import opened Revalidation
  import opened Scenarios
  import KeyLocker

  // ------------------------------------------------------------------ runs under the lock

  function Works(steps: seq<Step>): (works: seq<LockedStep>)
    ensures |works| == |steps| && forall i :: 0 <= i < |steps| ==> works[i] == Work(steps[i])
  {
    if steps == [] then [] else [Work(steps[0])] + Works(steps[1..])
  }

  /** Steps that are taken outside the lock as well. */
  predicate Lockless(steps: seq<Step>) {
    forall i :: 0 <= i < |steps| ==> !steps[i].StartRevalidation? && !steps[i].ReadForCommit?
  }

  lemma {:induction false} Lifted(s: Locked, steps: seq<Step>, end: State)
    requires Run(s.inner, steps, end) && Lockless(steps)
    ensures LockedRun(s, Works(steps), Locked(end, s.locker))
    decreases |steps|
  {
    if steps != [] {
      assert Works(steps)[1..] == Works(steps[1..]);
      assert HasLock(s, steps[0]);
      hide Apply;
      hide Enabled;
      Lifted(s.(inner := Apply(s.inner, steps[0])), steps[1..], end);
    }
  }

  lemma {:induction false} LockedRunConcat(s: Locked, a: seq<LockedStep>, mid: Locked, b: seq<LockedStep>, end: Locked)
    requires LockedRun(s, a, mid) && LockedRun(mid, b, end)
    ensures LockedRun(s, a + b, end)
    decreases |a|
  {
    if a == [] {
      assert a + b == b;
    } else {
      assert (a + b)[1..] == a[1..] + b && (a + b)[0] == a[0];
      LockedRunConcat(LockedApply(s, a[0]), a[1..], mid, b, end);
    }
  }

  lemma LockedRunOne(s: Locked, step: LockedStep)
    requires LockedEnabled(s, step)
    ensures LockedRun(s, [step], LockedApply(s, step))
  {
    assert [step][1..] == [];
  }

  /** A job takes the lock of its project when nobody uses the locks. */
  lemma LockTaken(s: Locked, job: nat, project: string) returns (steps: seq<LockedStep>, end: Locked)
    requires s.locker == KeyLocker.INITIAL
    ensures LockedRun(s, steps, end) && end.inner == s.inner && HoldsFillLock(end, job, project)
  {
    var enter, acquire := Lock(KeyLocker.Enter(job, FillKey(project))), Lock(KeyLocker.Acquire(job));
    LockedRunOne(s, enter);
    var s1 := LockedApply(s, enter);
    LockedRunOne(s1, acquire);
    end := LockedApply(s1, acquire);
    hide LockedRun;
    LockedRunConcat(s, [enter], s1, [acquire], end);
    steps := [enter] + [acquire];
  }

  /** The three steps up to a commit's write, under the lock. */
  lemma CommitLifted(s: Locked, job: nat, steps: seq<Step>, end: State)
    requires Run(s.inner, steps, end) && |steps| == 3
    requires steps[0].StartCommit? && steps[0].job == job && steps[1] == ReadForCommit(job) && steps[2].SampleForCommit?
    requires HoldsFillLock(s, job, steps[0].project)
    ensures LockedRun(s, Works(steps), Locked(end, s.locker))
  {
    var s1 := s.(inner := Apply(s.inner, steps[0]));
    var s2 := s.(inner := Apply(s1.inner, steps[1]));
    assert steps[1..][1..] == [steps[2]] && steps[1..][0] == steps[1];
    assert Run(s2.inner, [steps[2]], end);
    Lifted(s2, [steps[2]], end);
    LockedRunOne(s, Work(steps[0]));
    LockedRunOne(s1, Work(steps[1]));
    hide Run;
    hide LockedRun;
    LockedRunConcat(s, [Work(steps[0])], s1, [Work(steps[1])], s2);
    LockedRunConcat(s, [Work(steps[0])] + [Work(steps[1])], s2, Works([steps[2]]), Locked(end, s.locker));
    assert Works(steps) == [Work(steps[0])] + [Work(steps[1])] + Works([steps[2]]);
  }

  lemma {:induction false} LockedRunIsARun(s: Locked, steps: seq<LockedStep>, end: Locked) returns (works: seq<Step>)
    requires LockedRun(s, steps, end)
    ensures Run(s.inner, works, end.inner)
    decreases |steps|
  {
    if steps == [] {
      works := [];
    } else {
      var s1 := LockedApply(s, steps[0]);
      var rest := LockedRunIsARun(s1, steps[1..], end);
      hide Enabled;
      hide Apply;
      if steps[0].Work? {
        works := [steps[0].step] + rest;
        assert works[1..] == rest;
      } else {
        works := rest;
      }
    }
  }

  // --------------------------------------------------------------------------- the run

  const HTML := Body("p", false)
  const JSON := Body("p", true)

  function AboutToPublish(): Job {
    Converting("p", true, "h", "j", Publishing(Sample(0.0, 10.0, 10, Down, 2), Some(Sample(0.0, 100.0, 100, Down, 2))))
  }

  /** A page is there in one format. */
  lemma PageFilled() returns (steps: seq<Step>, s: State)
    ensures Run(INITIAL, steps, s) && Lockless(steps)
    ensures s.now == 0.0 && s.jobs == map[] && |s.log| == 2
    ensures s.store == map[HTML := Entry(10.0, Text("h")), Stale("p", false) := Entry(100.0, Text("h"))]
  {
    var fill := Fill("p", [(false, "h")], 10, 100, []);
    OneBodyFilled(INITIAL, "p", false, "h", 10, 100);
    s := Apply(INITIAL, fill);
    RunOne(INITIAL, fill);
    steps := [fill];
  }

  /** A request for the other format converts it and samples both lifetimes. */
  lemma ConversionPrepared(s: State, job: nat) returns (steps: seq<Step>, end: State)
    requires s.now == 0.0 && |s.log| == 2 && job !in s.jobs
    requires s.store == map[HTML := Entry(10.0, Text("h")), Stale("p", false) := Entry(100.0, Text("h"))]
    ensures Run(s, steps, end) && Lockless(steps)
    ensures end == s.(jobs := s.jobs[job := AboutToPublish()])
  {
    hide Ttl;
    var start, first, second := StartConversion(job, "p", true, "j"), SampleSource(job, Down), SampleSourceStale(job, Down);
    SamplesOfPage(s);
    assert TextAt(s, HTML) == Some("h");
    var s1 := Apply(s, start);
    RunOne(s, start);
    assert SampleOf(s1, HTML, Down) == SampleOf(s, HTML, Down);
    var s2 := Apply(s1, first);
    RunOne(s1, first);
    assert SampleOf(s2, Stale("p", false), Down) == SampleOf(s, Stale("p", false), Down);
    end := Apply(s2, second);
    RunOne(s2, second);
    hide Run;
    RunConcat(s, [start], s1, [first], s2);
    RunConcat(s, [start] + [first], s2, [second], end);
    steps := [start] + [first] + [second];
    assert end.jobs == s.jobs[job := AboutToPublish()];
  }

  lemma SamplesOfPage(s: State)
    requires s.now == 0.0 && |s.log| == 2
    requires s.store == map[HTML := Entry(10.0, Text("h")), Stale("p", false) := Entry(100.0, Text("h"))]
    ensures SampleOf(s, HTML, Down) == Some(Sample(0.0, 10.0, 10, Down, 2))
    ensures SampleOf(s, Stale("p", false), Down) == Some(Sample(0.0, 100.0, 100, Down, 2))
  {
    FloorIs(10.0, 10);
    FloorIs(100.0, 100);
  }

  /** The first of two such requests publishes. */
  lemma ConversionDone(s: State, job: nat)
    requires s.now == 0.0 && job in s.jobs && s.jobs[job] == AboutToPublish() && Lookup(s.store, HTML, s.now) == Some(Text("h"))
    ensures var step := PublishConversion(job); var end := Apply(s, step);
      && Enabled(s, step) && Run(s, [step], end) && Lockless([step])
      && end.now == 0.0 && end.jobs == s.jobs - {job} && |end.log| == |s.log| + 2
      && end.store == s.store[JSON := Entry(10.0, Text("j"))][Stale("p", true) := Entry(100.0, Text("j"))]
  {
    var j := s.jobs[job];
    RunOne(s, PublishConversion(job));
    ConversionLandsExactly(s, j);
    var a, b := Write(JSON, 10, Text("j")), Write(Stale("p", true), 100, Text("j"));
    var Publishing(x, y) := j.convertStage;
    assert ConversionWrites(j, x, y) == [a, b];
    PutTwo(s.store, s.now, a, b);
    LoggedFew(s.log, s.now, a, b, Converted(j.source, x, y));
    hide Run;
    hide ConversionLands;
    hide Logged;
    hide PutAll;
  }

  /** Two requests convert a page, and one of them publishes. */
  lemma OnePublished() returns (steps: seq<Step>, s: State)
    ensures Run(INITIAL, steps, s) && Lockless(steps)
    ensures s.now == 0.0 && s.jobs == map[1 := AboutToPublish()] && |s.log| == 4
    ensures HTML in s.store && s.store[HTML] == Entry(10.0, Text("h"))
    ensures JSON in s.store && s.store[JSON] == Entry(10.0, Text("j"))
  {
    hide Run;
    hide Apply;
    var a, s1 := PageFilled();
    var b, s2 := ConversionPrepared(s1, 1);
    var c, s3 := ConversionPrepared(s2, 2);
    ConversionDone(s3, 2);
    s := Apply(s3, PublishConversion(2));
    RunConcat(INITIAL, a, s1, b, s2);
    RunConcat(INITIAL, a + b, s2, c, s3);
    RunConcat(INITIAL, a + b + c, s3, [PublishConversion(2)], s);
    steps := a + b + c + [PublishConversion(2)];
  }

  /** What was published is enriched, and the page that was converted is still there. */
  lemma EnrichedUnderLock(s: Locked) returns (steps: seq<LockedStep>, end: Locked)
    requires s.inner.now == 0.0 && s.inner.jobs == map[1 := AboutToPublish()] && |s.inner.log| == 4 && HoldsFillLock(s, 3, "p")
    requires HTML in s.inner.store && s.inner.store[HTML] == Entry(10.0, Text("h"))
    requires JSON in s.inner.store && s.inner.store[JSON] == Entry(10.0, Text("j"))
    ensures LockedRun(s, steps, end) && end.inner.now == 0.0 && end.inner.jobs == map[1 := AboutToPublish()]
    ensures Lookup(end.inner.store, HTML, 0.0) == Some(Text("h")) && Lookup(end.inner.store, JSON, 0.0) == Some(Text("e"))
    ensures LastIndex(end.inner.log, JSON) == 4 && end.inner.log[4].cause.Enriched? && end.inner.log[4].value == "e"
  {
    hide Run;
    hide LockedRun;
    hide Apply;
    FloorIs(10.0, 10);
    assert SampleOf(s.inner, JSON, Down) == Some(Sample(0.0, 10.0, 10, Down, 4));
    var prepare, s1 := CommitPrepared(s.inner, 3, "p", true, "j", "e", Current, Down);
    CommitLifted(s, 3, prepare, s1);
    CommitDone(s1, 3, 100);
    CommitPuts(s1, 3, 100, HTML);
    var s2 := Apply(s1, WriteCommit(3, 100));
    end := Locked(s2, s.locker);
    Lifted(Locked(s1, s.locker), [WriteCommit(3, 100)], s2);
    LockedRunConcat(s, Works(prepare), Locked(s1, s.locker), Works([WriteCommit(3, 100)]), end);
    steps := Works(prepare) + Works([WriteCommit(3, 100)]);
    LastIndexIs(s2.log, JSON, 4);
    hide SampleOf;
    hide CommitLands;
  }

  /** In one process, under the fill lock: two requests miss a page and convert it from the
      other format; the first one's body is published and enriched; then the second one
      publishes, and the enrichment is lost. */
  lemma LockedConversionLosesAnEnrichment() returns (steps: seq<LockedStep>, s: Locked)
    ensures LockedRun(START, steps, s) && LockedEnabled(s, Work(PublishConversion(1)))
    ensures DiscardsSince(s.inner, Apply(s.inner, PublishConversion(1)).store, JSON, 0)
  {
    hide Run;
    hide LockedRun;
    var first, s1 := OnePublished();
    Lifted(START, first, s1);
    var begun := Locked(s1, KeyLocker.INITIAL);
    var lock, s2 := LockTaken(begun, 3, "p");
    var rest;
    rest, s := EnrichedUnderLock(s2);
    LockedRunConcat(START, Works(first), begun, lock, s2);
    LockedRunConcat(START, Works(first) + lock, s2, rest, s);
    steps := Works(first) + lock + rest;
    var works := LockedRunIsARun(START, steps, s);
    ConversionDiscardsExactly(works, s.inner, 1, JSON);
    hide DiscardsSince;
  }

  // ------------------------------------------------------------- a shorter lifetime undone

  /** A request has converted a page and sampled its lifetime, and the page is lost. */
  lemma SampledThenLost() returns (steps: seq<Step>, s: State)
    ensures Run(INITIAL, steps, s) && Lockless(steps)
    ensures s.now == 0.0 && s.jobs == map[1 := AboutToPublish()] && |s.log| == 2
    ensures s.store == map[Stale("p", false) := Entry(100.0, Text("h"))]
  {
    hide Run;
    var a, s1 := PageFilled();
    var b, s2 := ConversionPrepared(s1, 1);
    s := Apply(s2, Evict(HTML));
    RunOne(s2, Evict(HTML));
    RunConcat(INITIAL, a, s1, b, s2);
    RunConcat(INITIAL, a + b, s2, [Evict(HTML)], s);
    steps := a + b + [Evict(HTML)];
  }

  /** A 304 under the lock brings the page back for five seconds. */
  lemma BackForFive(s: Locked) returns (steps: seq<LockedStep>, end: Locked)
    requires s.inner.now == 0.0 && s.inner.jobs == map[1 := AboutToPublish()] && |s.inner.log| == 2 && HoldsFillLock(s, 2, "p")
    requires s.inner.store == map[Stale("p", false) := Entry(100.0, Text("h"))]
    ensures LockedRun(s, steps, end) && end.inner.now == 0.0 && 1 in end.inner.jobs && end.inner.jobs[1] == AboutToPublish()
    ensures Lookup(end.inner.store, HTML, 0.0) == Some(Text("h"))
    ensures LastIndex(end.inner.log, HTML) == 2 && end.inner.log[2] == CopyWrite(HTML, Revalidated, "h", 0.0, 5.0)
  {
    hide Run;
    hide LockedRun;
    hide Apply;
    var revalidate, republish := StartRevalidation(2, "p", false, PassThrough), Republish(2, 5, []);
    RevalidationStarted(s.inner, 2, "p", false, "h");
    var s1 := s.(inner := Apply(s.inner, revalidate));
    LockedRunOne(s, Work(revalidate));
    Republished(s1.inner, 2, 5);
    end := s.(inner := Apply(s1.inner, republish));
    LockedRunOne(s1, Work(republish));
    LockedRunConcat(s, [Work(revalidate)], s1, [Work(republish)], end);
    steps := [Work(revalidate)] + [Work(republish)];
    LastIndexIs(end.inner.log, HTML, 2);
  }

  /** In one process, under the fill lock: a request samples ten seconds for what it has
      converted; the page is lost and comes back for five; then the request publishes. */
  lemma LockedConversionUndoesALifetime() returns (steps: seq<LockedStep>, s: Locked)
    ensures LockedRun(START, steps, s) && LockedEnabled(s, Work(PublishConversion(1))) && s.inner.jobs[1] == AboutToPublish()
    ensures LastIndex(s.inner.log, HTML) == 2 && s.inner.log[2] == CopyWrite(HTML, Revalidated, "h", 0.0, 5.0)
    ensures Undoes(s.inner, Apply(s.inner, PublishConversion(1)).store, JSON, HTML, AboutToPublish().convertStage.sample)
  {
    hide Run;
    hide LockedRun;
    var first, s1 := SampledThenLost();
    Lifted(START, first, s1);
    var begun := Locked(s1, KeyLocker.INITIAL);
    var lock, s2 := LockTaken(begun, 2, "p");
    var rest;
    rest, s := BackForFive(s2);
    LockedRunConcat(START, Works(first), begun, lock, s2);
    LockedRunConcat(START, Works(first) + lock, s2, rest, s);
    steps := Works(first) + lock + rest;
    var works := LockedRunIsARun(START, steps, s);
    ConversionLandsExactly(s.inner, s.inner.jobs[1]);
    ConversionUndoesExactly(works, s.inner, 1);
    hide Undoes;
  }
}
