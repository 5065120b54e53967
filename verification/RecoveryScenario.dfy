/** A run in which one lost record costs two extractions. */
module RecoveryScenario {
  import opened Wrappers
  import opened Recovery
  import KeyLocker

  /** Nobody holds or waits for a lock, and no failure is remembered. */
  predicate Quiet(s: State) {
    s.locker.tasks == map[] && s.locker.owner == map[] && s.locker.registry == KeyLocker.Registry(map[], map[]) && s.failed == {}
  }

  lemma {:induction false} RunConcat(s: State, a: seq<Step>, mid: State, b: seq<Step>, end: State)
    requires Run(s, a, mid) && Run(mid, b, end)
    ensures Run(s, a + b, end)
    decreases |a|
  {
    if a == [] {
      assert a + b == b;
    } else {
      assert (a + b)[1..] == a[1..] + b && (a + b)[0] == a[0];
      RunConcat(Apply(s, a[0]), a[1..], mid, b, end);
    }
  }

  lemma RunTwo(s: State, a: Step, b: Step)
    requires Enabled(s, a) && Enabled(Apply(s, a), b)
    ensures Run(s, [a, b], Apply(Apply(s, a), b))
  {
    assert [a, b][1..] == [b] && [b][1..] == [];
  }

  /** The job has taken its artifact's lock. */
  ghost predicate AtLock(s: State, s': State, job: nat, request: Request, phase: Phase) {
    && s' == s.(jobs := s.jobs[job := Job(request, phase)], locker := s'.locker, tally := s'.tally)
    && s'.locker.tasks == map[job := KeyLocker.Task(request.identity, s.locker.nextLock, KeyLocker.Holding)]
    && s'.locker.owner == map[s.locker.nextLock := job]
    && s'.locker.registry == KeyLocker.Registry(map[request.identity := s.locker.nextLock], map[request.identity := 1])
  }

  /** A caller arrives, is not served, */
  lemma Arrives(s: State, job: nat, request: Request)
    requires Quiet(s) && job !in s.jobs && request.allowExtraction && !Serves(s, request.identity, request.wheel)
    ensures Run(s, [Arrive(job, request), Load(job)], s.(jobs := s.jobs[job := Job(request, Queuing)]))
  {
    hide KeyLocker.Apply;
    hide Bumped;
    RunTwo(s, Arrive(job, request), Load(job));
    var arrived := Apply(s, Arrive(job, request));
    assert Apply(arrived, Load(job)).jobs == s.jobs[job := Job(request, Queuing)];
  }

  /** registers for the lock and takes it. */
  lemma TakesLock(s: State, start: State, job: nat, request: Request) returns (steps: seq<Step>, s': State)
    requires Quiet(start) && s == start.(jobs := start.jobs[job := Job(request, Queuing)])
    ensures Run(s, steps, s') && AtLock(start, s', job, request, Loading(true))
  {
    hide MoveOf;
    hide Bumped;
    var enter, acquire := Lock(KeyLocker.Enter(job, request.identity)), Lock(KeyLocker.Acquire(job));
    RunTwo(s, enter, acquire);
    var s2 := Apply(Apply(s, enter), acquire);
    assert AtLock(start, s2, job, request, Queuing);
    s' := TakesIn(s2, start, job, request);
    hide Run;
    RunConcat(s, [enter, acquire], s2, [Locked(job)], s');
    steps := [enter, acquire] + [Locked(job)];
  }

  lemma TakesIn(s: State, start: State, job: nat, request: Request) returns (s': State)
    requires AtLock(start, s, job, request, Queuing)
    ensures Run(s, [Locked(job)], s') && AtLock(start, s', job, request, Loading(true))
  {
    s' := Apply(s, Locked(job));
    RunOne(s, Locked(job));
  }

  lemma RunOne(s: State, a: Step)
    requires Enabled(s, a)
    ensures Run(s, [a], Apply(s, a))
  {
    assert [a][1..] == [];
  }

  /** It finds the store without a record that serves it and no native file either, */
  lemma Attempts(s: State, start: State, job: nat, request: Request) returns (steps: seq<Step>, s': State)
    requires AtLock(start, s, job, request, Loading(true)) && request.allowExtraction && !Serves(s, request.identity, request.wheel)
    ensures Run(s, steps, s') && AtLock(start, s', job, request, Consulting)
  {
    hide KeyLocker.Apply;
    hide Bumped;
    if request.checkNative {
      RunTwo(s, Load(job), Probe(job, Absent));
      s' := Apply(Apply(s, Load(job)), Probe(job, Absent));
      steps := [Load(job), Probe(job, Absent)];
    } else {
      RunOne(s, Load(job));
      s' := Apply(s, Load(job));
      steps := [Load(job)];
    }
  }

  /** The artifact's record has been published, and the lock is still held. */
  ghost predicate Extracted(start: State, s': State, job: nat, request: Request) {
    && s' == start.(jobs := start.jobs[job := Job(request, Done)], locker := s'.locker, tally := s'.tally,
                    stored := start.stored[request.identity := request.wheel], extracted := Bumped(start.extracted, request.identity))
    && s'.locker.tasks == map[job := KeyLocker.Task(request.identity, start.locker.nextLock, KeyLocker.Holding)]
    && s'.locker.owner == map[start.locker.nextLock := job]
    && s'.locker.registry == KeyLocker.Registry(map[request.identity := start.locker.nextLock], map[request.identity := 1])
  }

  /** extracts and publishes, */
  lemma Extracts(s: State, start: State, job: nat, request: Request) returns (s': State)
    requires Quiet(start) && AtLock(start, s, job, request, Consulting)
    ensures Run(s, [Consult(job, true), Publish(job)], s') && Extracted(start, s', job, request)
  {
    hide KeyLocker.Apply;
    hide Bumped;
    RunTwo(s, Consult(job, true), Publish(job));
    s' := Apply(Apply(s, Consult(job, true)), Publish(job));
  }

  /** and lets the lock go. */
  lemma LetsGo(s: State, start: State, job: nat, request: Request) returns (steps: seq<Step>, s': State)
    requires Quiet(start) && Extracted(start, s, job, request)
    ensures Run(s, steps, s') && Quiet(s') && s' == s.(locker := s'.locker)
  {
    hide MoveOf;
    hide Bumped;
    var release, leave := Lock(KeyLocker.Release(job)), Lock(KeyLocker.Leave(job));
    RunTwo(s, release, leave);
    s' := Apply(Apply(s, release), leave);
    steps := [release, leave];
  }

  /** Requests as the code makes them: one without a hash is a recovery, which looks for
      a native file first, one with a hash is background work, which does not. */
  function RequestFor(wheel: Option<string>): Request {
    Request("a", wheel, wheel.None?, true, wheel.None?)
  }

  lemma OneExtraction(s: State, job: nat, wheel: Option<string>) returns (steps: seq<Step>, s': State)
    requires Quiet(s) && job !in s.jobs && !Serves(s, "a", wheel)
    ensures Run(s, steps, s') && Quiet(s') && s'.jobs == s.jobs[job := Job(RequestFor(wheel), Done)]
    ensures s'.stored == s.stored["a" := wheel]
    ensures s'.extracted == Bumped(s.extracted, "a") && s'.lost == s.lost && s'.foreign == s.foreign
  {
    var request := RequestFor(wheel);
    hide Run;
    hide Bumped;
    Arrives(s, job, request);
    var s1 := s.(jobs := s.jobs[job := Job(request, Queuing)]);
    var taking, s2 := TakesLock(s1, s, job, request);
    var trying, s3 := Attempts(s2, s, job, request);
    var s4 := Extracts(s3, s, job, request);
    var leaving;
    leaving, s' := LetsGo(s4, s, job, request);
    RunConcat(s, [Arrive(job, request), Load(job)], s1, taking, s2);
    RunConcat(s, [Arrive(job, request), Load(job)] + taking, s2, trying, s3);
    RunConcat(s, [Arrive(job, request), Load(job)] + taking + trying, s3, [Consult(job, true), Publish(job)], s4);
    RunConcat(s, [Arrive(job, request), Load(job)] + taking + trying + [Consult(job, true), Publish(job)], s4, leaving, s');
    steps := [Arrive(job, request), Load(job)] + taking + trying + [Consult(job, true), Publish(job)] + leaving;
  }

  /** A caller without a hash, then one with it. */
  lemma TwoExtractions(s: State, job: nat) returns (steps: seq<Step>, s': State)
    requires Quiet(s) && job !in s.jobs && job + 1 !in s.jobs && "a" !in s.stored
    ensures Run(s, steps, s') && Quiet(s') && "a" in s'.stored
    ensures s'.jobs == s.jobs[job := Job(RequestFor(None), Done)][job + 1 := Job(RequestFor(Some("h")), Done)]
    ensures Count(s'.extracted, "a") == Count(s.extracted, "a") + 2 && s'.lost == s.lost && s'.foreign == s.foreign
  {
    hide Run;
    var first, mid := OneExtraction(s, job, None);
    var second;
    second, s' := OneExtraction(mid, job + 1, Some("h"));
    RunConcat(s, first, mid, second, s');
    steps := first + second;
  }

  lemma Loses(s: State)
    requires Quiet(s) && "a" in s.stored
    ensures var s' := Apply(s, Lose("a"));
      Run(s, [Lose("a")], s') && Quiet(s') && s' == s.(stored := s'.stored, lost := s'.lost)
      && "a" !in s'.stored && Count(s'.lost, "a") == Count(s.lost, "a") + 1
  {
    RunOne(s, Lose("a"));
  }

  /** Two callers, one of whom names the wheel's hash; their record is lost; and two more:
      four extractions with one loss. */
  lemma OneLossCostsTwo() returns (steps: seq<Step>, end: State)
    ensures Run(INITIAL, steps, end) && Uniform(end, "a", Either("h"))
    ensures Count(end.extracted, "a") == 4 && Count(end.lost, "a") == 1 && Count(end.foreign, "a") == 0
  {
    var first, s1 := TwoExtractions(INITIAL, 1);
    Loses(s1);
    var s2 := Apply(s1, Lose("a"));
    hide Run;
    hide Apply;
    var second;
    second, end := TwoExtractions(s2, 3);
    RunConcat(INITIAL, first, s1, [Lose("a")], s2);
    RunConcat(INITIAL, first + [Lose("a")], s2, second, end);
    steps := first + [Lose("a")] + second;
  }
}
