/** How long bodies live: what enrichments and conversions add to the lifetime that the
    last fetch or revalidation gave, one commit at a time and over whole chains. */
module Lifetimes {
  import opened Wrappers
  import opened TimedStore
  import opened ProjectKeys
  import opened Enrichment

  /** The new expiry of a copy whose lifetime goes on from a sample: the old expiry, the
      time since the sample, and what rounding added or took. */
  function Moved(x: Sample, now: real): real {
    x.exp + (now - x.at) + Excess(x)
  }

  /** In every run, and for both copies: a commit that lands moves the expiry of the copy
      it is bound to by exactly the time since the sample and what rounding did. If nobody
      else re-timed the copy in between, that is at most half a second more than the gap,
      and more than the gap at all exactly when the sample was rounded up. */
  lemma CommitMovesExpiryByTheGap(steps: seq<Step>, s: State, job: nat, staleTtl: int)
    requires Run(INITIAL, steps, s) && Enabled(s, WriteCommit(job, staleTtl))
    ensures var j, s' := s.jobs[job], Apply(s, WriteCommit(job, staleTtl));
      var x, key := j.commitStage.sample, BoundKey(j, j.commitStage.bound);
      && (CommitLands(s, j) && j.changed ==> key in s'.store && s'.store[key].exp == Moved(x, s.now))
      && (!(CommitLands(s, j) && j.changed) && key in s.store ==> key in s'.store && s'.store[key].exp == s.store[key].exp)
    ensures var x := s.jobs[job].commitStage.sample;
      x.at <= s.now && Excess(x) <= Slack(x.rounding) && (Excess(x) > 0.0 <==> RoundsUp(x.exp - x.at, x.rounding))
  {
    ReachableKeepsInv(steps, s);
    var j := s.jobs[job];
    assert JobSane(s.now, j);
    hide Inv;
    hide Run;
    ExcessOfTrueSample(j.commitStage.sample);
    if CommitLands(s, j) {
      LandedCommit(s, job, staleTtl);
      hide Apply;
    }
  }

  /** In every run a conversion that lands gives both copies it writes the expiry of their
      sources, moved in the same way, each from a sample of its own. */
  lemma ConversionMovesExpiryByTheGap(steps: seq<Step>, s: State, job: nat)
    requires Run(INITIAL, steps, s) && Enabled(s, PublishConversion(job))
    ensures var j, s' := s.jobs[job], Apply(s, PublishConversion(job));
      var Publishing(x, y) := j.convertStage;
      var current, stale := Body(j.project, j.json), Stale(j.project, j.json);
      if ConversionLands(s, j) then
        && current in s'.store && s'.store[current].exp == Moved(x, s.now)
        && (y.Some? ==> stale in s'.store && s'.store[stale].exp == Moved(y.value, s.now))
        && (y.None? && stale in s.store ==> stale in s'.store && s'.store[stale] == s.store[stale])
      else s'.store == s.store
    ensures var Publishing(x, y) := s.jobs[job].convertStage;
      && x.at <= s.now && Excess(x) <= Slack(x.rounding) && (Excess(x) > 0.0 <==> RoundsUp(x.exp - x.at, x.rounding))
      && (y.Some? ==> var z := y.value;
            z.at <= s.now && Excess(z) <= Slack(z.rounding) && (Excess(z) > 0.0 <==> RoundsUp(z.exp - z.at, z.rounding)))
  {
    ReachableKeepsInv(steps, s);
    var j := s.jobs[job];
    assert JobSane(s.now, j);
    hide Inv;
    hide Run;
    var Publishing(x, y) := j.convertStage;
    ExcessOfTrueSample(x);
    if y.Some? {
      ExcessOfTrueSample(y.value);
    }
    if ConversionLands(s, j) {
      LandedConversion(s, job);
    }
    hide ConversionWrites;
    hide ConversionLands;
    hide TrueSample;
    hide RoundsUp;
  }

  /** What a conversion that lands leaves in the two copies it writes. */
  lemma LandedConversion(s: State, job: nat)
    requires Enabled(s, PublishConversion(job)) && ConversionLands(s, s.jobs[job])
    ensures var j, store := s.jobs[job], Apply(s, PublishConversion(job)).store;
      var Publishing(x, y) := j.convertStage;
      var current, stale := Body(j.project, j.json), Stale(j.project, j.json);
      && current in store && store[current] == Entry(s.now + x.ttl as real, Text(j.target))
      && (y.Some? ==> stale in store && store[stale] == Entry(s.now + y.value.ttl as real, Text(j.target)))
      && (y.None? && stale in s.store ==> stale in store && store[stale] == s.store[stale])
  {
    var j := s.jobs[job];
    var Publishing(x, y) := j.convertStage;
    ConversionLastWrites(j, x, y);
    LastWriteWins(s.store, s.now, ConversionWrites(j, x, y), Body(j.project, j.json));
    LastWriteWins(s.store, s.now, ConversionWrites(j, x, y), Stale(j.project, j.json));
    hide LastWrite;
    hide PutAll;
    hide Logged;
  }

  lemma ConversionLastWrites(j: Job, x: Sample, y: Option<Sample>)
    requires j.Converting?
    ensures var writes := ConversionWrites(j, x, y);
      LastWrite(writes, Body(j.project, j.json)) == 0
      && LastWrite(writes, Stale(j.project, j.json)) == if y.Some? then 1 else -1
  {
    LastWriteIs(ConversionWrites(j, x, y), Body(j.project, j.json), 0);
    LastWriteIs(ConversionWrites(j, x, y), Stale(j.project, j.json), if y.Some? then 1 else -1);
  }

  // ------------------------------------------------------------ where samples come from

  /** The sample was taken from what was then the last write to its source. */
  ghost predicate ReadFrom(log: seq<CopyWrite>, source: Key, x: Sample) {
    x.seen <= |log| && Latest(log[..x.seen], source).Some? && Latest(log[..x.seen], source).value.exp == x.exp
  }

  ghost predicate SamplesRead(log: seq<CopyWrite>, j: Job) {
    match j
    case Committing(_, _, _, _, _, _, stage) => stage.Writing? ==> ReadFrom(log, BoundKey(j, stage.bound), stage.sample)
    case Converting(project, json, _, _, stage) =>
      && (!stage.SamplingSource? ==> ReadFrom(log, Body(project, !json), stage.sample))
      && (stage.Publishing? && stage.staleSample.Some? ==> ReadFrom(log, Stale(project, !json), stage.staleSample.value))
    case Revalidating(_, _, _, _, _, _) => true
  }

  /** A lifetime that upstream or the configuration gave, and nobody sampled. */
  predicate GivenAnew(w: CopyWrite) {
    w.cause.Fetched? || w.cause.Revalidated? || (w.cause.Enriched? && w.key.Stale? && w.key != w.cause.bound)
  }

  /** A write goes on with a lifetime that was sampled before, or was given a new one. */
  ghost predicate Grounded(before: seq<CopyWrite>, w: CopyWrite) {
    match Timing(w)
    case Some((source, x)) => ReadFrom(before, source, x)
    case None => GivenAnew(w)
  }

  ghost predicate Rooted(log: seq<CopyWrite>) {
    forall i :: 0 <= i < |log| ==> Grounded(log[..i], log[i])
  }

  ghost predicate InFlight(s: State) {
    forall job :: job in s.jobs ==> SamplesRead(s.log, s.jobs[job])
  }

  lemma ReadFromEarlier(log: seq<CopyWrite>, log': seq<CopyWrite>, source: Key, x: Sample)
    requires log <= log' && ReadFrom(log, source, x)
    ensures ReadFrom(log', source, x)
  {
    assert log'[..x.seen] == log[..x.seen];
  }

  lemma SamplesReadEarlier(log: seq<CopyWrite>, log': seq<CopyWrite>, j: Job)
    requires log <= log' && SamplesRead(log, j)
    ensures SamplesRead(log', j)
  {
    match j
    case Committing(_, _, _, _, _, _, stage) =>
      if stage.Writing? {
        ReadFromEarlier(log, log', BoundKey(j, stage.bound), stage.sample);
      }
    case Converting(project, json, _, _, stage) =>
      if !stage.SamplingSource? {
        ReadFromEarlier(log, log', Body(project, !json), stage.sample);
      }
      if stage.Publishing? && stage.staleSample.Some? {
        ReadFromEarlier(log, log', Stale(project, !json), stage.staleSample.value);
      }
    case Revalidating(_, _, _, _, _, _) =>
  }

  lemma SampleIsRead(s: State, k: Key, rounding: Rounding)
    requires Tracks(s.store, s.log) && IsCopy(k) && SampleOf(s, k, rounding).Some?
    ensures ReadFrom(s.log, k, SampleOf(s, k, rounding).value)
  {
    assert s.log[..|s.log|] == s.log;
    hide Latest;
  }

  /** A job after a step is one from before it, or has just taken a sample or begun. */
  lemma JobsRead(s: State, step: Step, job: nat)
    requires Inv(s) && InFlight(s) && Enabled(s, step) && job in Apply(s, step).jobs
    ensures SamplesRead(s.log, Apply(s, step).jobs[job])
  {
    if job in s.jobs {
      assert SamplesRead(s.log, s.jobs[job]);
    }
    if Samples(step) && step.job == job {
      JobSamples(s, step);
    } else {
      JobStays(s, step, job);
    }
    hide *;
  }

  predicate Samples(step: Step) {
    step.SampleForCommit? || step.SampleSource? || step.SampleSourceStale?
  }

  lemma JobSamples(s: State, step: Step)
    requires Inv(s) && Enabled(s, step) && Samples(step) && SamplesRead(s.log, s.jobs[step.job])
    requires step.job in Apply(s, step).jobs
    ensures SamplesRead(s.log, Apply(s, step).jobs[step.job])
  {
    var j := s.jobs[step.job];
    var source := match step
      case SampleForCommit(_, _) => BoundKey(j, j.commitStage.bound)
      case SampleSource(_, _) => Body(j.project, !j.json)
      case _ => Stale(j.project, !j.json);
    if SampleOf(s, source, step.rounding).Some? {
      SampleIsRead(s, source, step.rounding);
    }
    hide Inv;
    hide ReadFrom;
    hide SampleOf;
  }

  /** Other steps take no sample for the job. */
  lemma JobStays(s: State, step: Step, job: nat)
    requires Enabled(s, step) && job in Apply(s, step).jobs && !(Samples(step) && step.job == job)
    requires job in s.jobs ==> SamplesRead(s.log, s.jobs[job])
    ensures SamplesRead(s.log, Apply(s, step).jobs[job])
  {
    hide ReadFrom;
    hide WriteAll;
    hide BoundOf;
    hide SampleOf;
    hide TextAt;
  }

  lemma StepIsGrounded(s: State, step: Step, i: nat)
    requires Inv(s) && InFlight(s) && Enabled(s, step) && |s.log| <= i < |Apply(s, step).log|
    ensures Grounded(s.log, Apply(s, step).log[i])
  {
    StepLogs(s, step);
    if step.WriteCommit? || step.PublishConversion? {
      assert SamplesRead(s.log, s.jobs[step.job]);
    }
    hide Inv;
    hide Apply;
    hide ReadFrom;
  }

  lemma RootedGrows(log: seq<CopyWrite>, log': seq<CopyWrite>)
    requires Rooted(log) && log <= log'
    requires forall i :: |log| <= i < |log'| ==> Grounded(log, log'[i])
    ensures Rooted(log')
  {
    forall i | 0 <= i < |log'|
      ensures Grounded(log'[..i], log'[i])
    {
      if i < |log| {
        assert log'[..i] == log[..i];
      } else if Timing(log'[i]).Some? {
        var (source, x) := Timing(log'[i]).value;
        ReadFromEarlier(log, log'[..i], source, x);
      }
    }
  }

  /** Every step keeps: samples in flight and in the log are of real earlier writes. */
  lemma SamplesPreserved(s: State, step: Step)
    requires Inv(s) && Rooted(s.log) && InFlight(s) && Enabled(s, step)
    ensures Rooted(Apply(s, step).log) && InFlight(Apply(s, step))
  {
    var s' := Apply(s, step);
    StepLogs(s, step);
    forall i | |s.log| <= i < |s'.log|
      ensures Grounded(s.log, s'.log[i])
    {
      StepIsGrounded(s, step, i);
    }
    RootedGrows(s.log, s'.log);
    forall job | job in s'.jobs
      ensures SamplesRead(s'.log, s'.jobs[job])
    {
      JobsRead(s, step, job);
      SamplesReadEarlier(s.log, s'.log, s'.jobs[job]);
    }
    hide Apply;
    hide Inv;
    hide Rooted;
    hide SamplesRead;
  }

  lemma {:induction false} RunKeepsSamples(s: State, steps: seq<Step>, end: State)
    requires Inv(s) && Rooted(s.log) && InFlight(s) && Run(s, steps, end)
    ensures Rooted(end.log) && InFlight(end)
    decreases |steps|
  {
    if steps != [] {
      InvPreserved(s, steps[0]);
      SamplesPreserved(s, steps[0]);
      hide Inv;
      hide Rooted;
      hide InFlight;
      hide Apply;
      RunKeepsSamples(Apply(s, steps[0]), steps[1..], end);
    }
  }

  lemma ReachableSamples(steps: seq<Step>, s: State)
    requires Run(INITIAL, steps, s)
    ensures Inv(s) && Rooted(s.log) && InFlight(s)
  {
    ReachableKeepsInv(steps, s);
    assert Inv(INITIAL);
    hide Inv;
    hide Run;
    RunKeepsSamples(INITIAL, steps, s);
  }

  // ------------------------------------------------------------- re-timings that are undone

  /** The i-th write is the last one to the source, and the copy lives on after it. */
  ghost predicate Outlives(s: State, after: Shared, copy: Key, source: Key, i: int) {
    && 0 <= i < |s.log| && s.log[i].key == source
    && (forall n :: i < n < |s.log| ==> s.log[n].key != source)
    && copy in after && after[copy].exp > s.log[i].exp
  }

  /** A lifetime that the source was given after the sample is outlived. */
  ghost predicate Undoes(s: State, after: Shared, copy: Key, source: Key, x: Sample) {
    exists i :: x.seen <= i && Outlives(s, after, copy, source, i)
  }

  lemma UndoesIff(s: State, after: Shared, copy: Key, source: Key, x: Sample)
    ensures var last := LastIndex(s.log, source);
      Undoes(s, after, copy, source, x) <==> last >= x.seen && copy in after && after[copy].exp > s.log[last].exp
  {
    var last := LastIndex(s.log, source);
    forall i | Outlives(s, after, copy, source, i)
      ensures i == last
    {
      LastIndexIs(s.log, source, i);
    }
    if last >= x.seen && copy in after && after[copy].exp > s.log[last].exp {
      assert Outlives(s, after, copy, source, last);
    }
  }

  /** Where the source has not been written since the sample, the sample is of its last write. */
  lemma NotRetimed(log: seq<CopyWrite>, source: Key, x: Sample)
    requires ReadFrom(log, source, x) && LastIndex(log, source) < x.seen
    ensures LastIndex(log, source) >= 0 && log[LastIndex(log, source)].exp == x.exp
  {
    LastIndexIs(log, source, LastIndex(log[..x.seen], source));
  }

  /** In every run: a commit undoes a lifetime that the copy was given after the sample if
      and only if that write left the body the commit was made from, it is still live, the
      commit changes the body, no current copy is in its way, and the lifetime ends before
      the sampled one, moved by the gap, does. Where nobody wrote the copy since, the
      commit goes on from the copy's own expiry. */
  lemma CommitUndoesExactly(steps: seq<Step>, s: State, job: nat, staleTtl: int)
    requires Run(INITIAL, steps, s) && Enabled(s, WriteCommit(job, staleTtl))
    ensures var j, after := s.jobs[job], Apply(s, WriteCommit(job, staleTtl)).store;
      var Writing(bound, x) := j.commitStage;
      var key := BoundKey(j, bound);
      var last := LastIndex(s.log, key);
      && (last < x.seen ==> last >= 0 && s.log[last].exp == x.exp)
      && (Undoes(s, after, key, key, x) <==>
            && last >= x.seen && s.log[last].value == j.body && Live(s.store, key, s.now) && j.changed
            && (bound.StaleOnly? ==> !Live(s.store, Body(j.project, j.json), s.now))
            && s.log[last].exp < Moved(x, s.now))
  {
    var j, after := s.jobs[job], Apply(s, WriteCommit(job, staleTtl)).store;
    var Writing(bound, x) := j.commitStage;
    var key := BoundKey(j, bound);
    ReachableSamples(steps, s);
    assert SamplesRead(s.log, j);
    if LastIndex(s.log, key) < x.seen {
      NotRetimed(s.log, key, x);
    }
    UndoesIff(s, after, key, key, x);
    CommitMovesExpiryByTheGap(steps, s, job, staleTtl);
    LandsExactly(s, j);
    assert key in s.store ==>
      (Latest(s.log, key).Some? && s.store[key] == Entry(Latest(s.log, key).value.exp, Text(Latest(s.log, key).value.value)));
    if !(CommitLands(s, j) && j.changed) {
      NothingMoves(s, job, staleTtl);
    }
    hide Run;
    hide Apply;
    hide Inv;
    hide InFlight;
    hide Rooted;
    hide ReadFrom;
    hide Undoes;
    hide CommitLands;
  }

  lemma NothingMoves(s: State, job: nat, staleTtl: int)
    requires Enabled(s, WriteCommit(job, staleTtl)) && !(CommitLands(s, s.jobs[job]) && s.jobs[job].changed)
    ensures var j, after := s.jobs[job], Apply(s, WriteCommit(job, staleTtl)).store;
      var key := BoundKey(j, j.commitStage.bound);
      key in after ==> key in s.store && after[key] == s.store[key]
  {
    if CommitLands(s, s.jobs[job]) {
      LandedCommit(s, job, staleTtl);
      hide Apply;
    }
  }

  /** In every run: the copies that a conversion writes outlive a lifetime that their
      source was given after the sample if and only if that one ends before the sampled
      one, moved by the gap, does. The stale source may even have become another text. */
  lemma ConversionUndoesExactly(steps: seq<Step>, s: State, job: nat)
    requires Run(INITIAL, steps, s) && Enabled(s, PublishConversion(job)) && ConversionLands(s, s.jobs[job])
    ensures var j, after := s.jobs[job], Apply(s, PublishConversion(job)).store;
      var Publishing(x, y) := j.convertStage;
      var source, stale := Body(j.project, !j.json), Stale(j.project, !j.json);
      var last, lastStale := LastIndex(s.log, source), LastIndex(s.log, stale);
      && (last < x.seen ==> last >= 0 && s.log[last].exp == x.exp)
      && (Undoes(s, after, Body(j.project, j.json), source, x) <==> last >= x.seen && s.log[last].exp < Moved(x, s.now))
      && (y.Some? ==>
            && (lastStale < y.value.seen ==> lastStale >= 0 && s.log[lastStale].exp == y.value.exp)
            && (Undoes(s, after, Stale(j.project, j.json), stale, y.value) <==>
                  lastStale >= y.value.seen && s.log[lastStale].exp < Moved(y.value, s.now)))
  {
    var j, after := s.jobs[job], Apply(s, PublishConversion(job)).store;
    var Publishing(x, y) := j.convertStage;
    var source, stale := Body(j.project, !j.json), Stale(j.project, !j.json);
    ReachableSamples(steps, s);
    assert SamplesRead(s.log, j);
    ConversionMovesExpiryByTheGap(steps, s, job);
    hide Run;
    hide Apply;
    hide Inv;
    hide InFlight;
    hide Rooted;
    hide ReadFrom;
    hide Undoes;
    hide ConversionLands;
    UndoesIff(s, after, Body(j.project, j.json), source, x);
    if LastIndex(s.log, source) < x.seen {
      NotRetimed(s.log, source, x);
    }
    if y.Some? {
      UndoesIff(s, after, Stale(j.project, j.json), stale, y.value);
      if LastIndex(s.log, stale) < y.value.seen {
        NotRetimed(s.log, stale, y.value);
      }
    }
  }

  // ---------------------------------------------------------------------- whole chains

  function Min(a: int, b: int): int {
    if a < b then a else b
  }

  /** The write whose lifetime the i-th one goes on with: the last to its source when the
      sample was taken; or -1. */
  function Predecessor(log: seq<CopyWrite>, i: nat): (p: int)
    requires i < |log| && Timing(log[i]).Some?
    ensures -1 <= p < i
  {
    var (source, x) := Timing(log[i]).value;
    LastIndex(log[..Min(x.seen, i)], source)
  }

  /** The write that began the chain of lifetimes. */
  function Origin(log: seq<CopyWrite>, i: nat): (o: int)
    requires i < |log|
    ensures -1 <= o <= i
  {
    if Timing(log[i]).None? then i
    else
      var p := Predecessor(log, i);
      if p < 0 then -1 else Origin(log, p)
  }

  /** Over all links of the chain: the time between sample and commit and the slack of the
      sample's rounding. */
  function Carried(log: seq<CopyWrite>, i: nat): real
    requires i < |log|
  {
    match Timing(log[i])
    case None => 0.0
    case Some((_, x)) =>
      var p := Predecessor(log, i);
      (log[i].at - x.at) + Slack(x.rounding) + if p < 0 then 0.0 else Carried(log, p)
  }

  lemma DescendsInTime(before: seq<CopyWrite>, w: CopyWrite)
    requires Descends(before, w) && Timing(w).Some?
    ensures var x := Timing(w).value.1;
      x.at <= w.at && w.exp <= x.exp + (w.at - x.at) + Slack(x.rounding)
  {
    ExcessOfTrueSample(Timing(w).value.1);
  }

  /** A link goes on from a real write, and ends no later than that one, the gap and the slack. */
  lemma LinkIsBounded(log: seq<CopyWrite>, i: nat)
    requires Lineage(log) && Rooted(log) && i < |log| && Timing(log[i]).Some?
    ensures var x, p := Timing(log[i]).value.1, Predecessor(log, i);
      p >= 0 && x.at <= log[i].at && log[i].exp <= log[p].exp + (log[i].at - x.at) + Slack(x.rounding)
  {
    var (source, x) := Timing(log[i]).value;
    assert Descends(log[..i], log[i]) && Grounded(log[..i], log[i]);
    DescendsInTime(log[..i], log[i]);
    assert log[..i][..x.seen] == log[..x.seen];
    hide Lineage;
    hide Rooted;
    hide Descends;
    hide Timing;
    hide LastIndex;
  }

  lemma {:induction false} ChainsAreBounded(log: seq<CopyWrite>, i: nat)
    requires Lineage(log) && Rooted(log) && i < |log|
    ensures var o := Origin(log, i);
      o >= 0 && GivenAnew(log[o]) && Carried(log, i) >= 0.0 && log[i].exp <= log[o].exp + Carried(log, i)
    decreases i
  {
    if Timing(log[i]).Some? {
      LinkIsBounded(log, i);
      hide Lineage;
      hide Rooted;
      hide Timing;
      hide Predecessor;
      ChainsAreBounded(log, Predecessor(log, i));
    } else {
      assert Grounded(log[..i], log[i]);
    }
  }

  /** Lifetimes are not restarted: in every run each current and each stale body goes back,
      sample by sample, to a write that was given its lifetime anew, and expires no later
      than that one did, the gaps between samples and commits, and the slacks. */
  lemma LifetimesAreNotRestarted(steps: seq<Step>, end: State, k: Key)
    requires Run(INITIAL, steps, end) && IsCopy(k) && k in end.store
    ensures var i := LastIndex(end.log, k);
      && i >= 0 && end.store[k] == Entry(end.log[i].exp, Text(end.log[i].value))
      && var o := Origin(end.log, i);
      && o >= 0 && GivenAnew(end.log[o]) && end.store[k].exp <= end.log[o].exp + Carried(end.log, i)
  {
    ReachableSamples(steps, end);
    ChainsAreBounded(end.log, LastIndex(end.log, k));
  }
}
