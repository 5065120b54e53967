/** Resolving a wheel's metadata: stored copy, native file or extraction, one job per
    artifact at a time. What the counters add up to, and how often a wheel is extracted. */
module Recovery {
  import opened Wrappers
  import opened Counting
  import KeyLocker

  /** Past the lock and a second look at the store, an attempt probes, consults the
      failure marker and extracts. */
  datatype Phase =
    | Loading(locked: bool)
    | Queuing
    | Probing
    | Consulting
    | Extracting
    | Done

  /** Recoveries are the only counted requests, and they always allow extraction. */
  datatype Request = Request(identity: string, wheel: Option<string>, checkNative: bool, allowExtraction: bool, recovery: bool)

  datatype Job = Job(request: Request, phase: Phase)

  datatype Tally = Tally(attempts: nat, successes: nat, failures: nat, natives: nat, abandoned: nat)

  datatype Outcome = Attempted | Succeeded | Failed | FellBack | GaveUp

  /** `stored` has the wheel hash of each live record. The last three are observations:
      successful extractions, records lost, and records written by anybody else. */
  datatype State = State(
    jobs: map<nat, Job>, locker: KeyLocker.State, stored: map<string, Option<string>>, failed: set<(string, Option<string>)>,
    tally: Tally, extracted: map<string, nat>, lost: map<string, nat>, foreign: map<string, nat>)

  const INITIAL := State(map[], KeyLocker.INITIAL, map[], {}, Tally(0, 0, 0, 0, 0), map[], map[], map[])

  datatype Reply = NoUrl | Exists | Absent

  datatype Step =
    | Arrive(job: nat, request: Request)
    | Load(job: nat)
    | Lock(step: KeyLocker.Step)
    | Locked(job: nat)
    | Probe(job: nat, reply: Reply)
    | Consult(job: nat, hasUrl: bool)
    | Publish(job: nat)
    | Fail(job: nat)
    | Abort(job: nat)
    | Lose(identity: string)
    | Forget(failure: (string, Option<string>))
    | Write(identity: string, wheel: Option<string>)

  /** The phases of an attempt, after the store has been missed under the lock. */
  predicate Attempting(phase: Phase) {
    phase.Probing? || phase.Consulting? || phase.Extracting?
  }

  predicate Critical(phase: Phase) {
    Attempting(phase) || phase == Loading(true)
  }

  predicate At(s: State, job: nat, phase: Phase) {
    job in s.jobs && s.jobs[job].phase == phase
  }

  predicate Disciplined(s: State, step: KeyLocker.Step) {
    step.task in s.jobs ==>
      match step
      case Enter(job, key) => s.jobs[job].phase.Queuing? && key == s.jobs[job].request.identity
      case Cancel(job) => s.jobs[job].phase.Queuing?
      case Release(job) => s.jobs[job].phase.Done?
      case _ => true
  }

  predicate Enabled(s: State, step: Step) {
    match step
    case Arrive(job, request) => job !in s.jobs && job !in s.locker.tasks && (request.recovery ==> request.allowExtraction)
    case Load(job) => job in s.jobs && s.jobs[job].phase.Loading?
    case Lock(step) => KeyLocker.Enabled(s.locker, step) && Disciplined(s, step)
    case Locked(job) =>
      At(s, job, Queuing) && KeyLocker.InPhase(s.locker, job, KeyLocker.Holding)
      && s.locker.tasks[job].key == s.jobs[job].request.identity
    case Probe(job, _) => At(s, job, Probing)
    case Consult(job, _) => At(s, job, Consulting)
    case Publish(job) => At(s, job, Extracting)
    case Fail(job) => At(s, job, Extracting)
    case Abort(job) => job in s.jobs && (s.jobs[job].phase.Loading? || Attempting(s.jobs[job].phase))
    case Lose(identity) => identity in s.stored
    case Forget(_) => true
    case Write(_, _) => true
  }

  // ------------------------------------------------------------------- transitions

  function Count(m: map<string, nat>, k: string): nat {
    if k in m then m[k] else 0
  }

  function Bumped(m: map<string, nat>, k: string): map<string, nat> {
    m[k := Count(m, k) + 1]
  }

  function Counted(t: Tally, recovery: bool, outcome: Outcome): Tally {
    if !recovery then t
    else
      match outcome
      case Attempted => t.(attempts := t.attempts + 1)
      case Succeeded => t.(successes := t.successes + 1)
      case Failed => t.(failures := t.failures + 1)
      case FellBack => t.(natives := t.natives + 1)
      case GaveUp => t.(abandoned := t.abandoned + 1)
  }

  /** A stored copy serves a reader without a wheel hash, or with the recorded one. */
  predicate Serves(s: State, identity: string, wheel: Option<string>) {
    identity in s.stored && (wheel.Some? ==> s.stored[identity] == wheel)
  }

  /** What a job does in one step: where it stands after it, what it counts, and
      whether it leaves a failure marker or publishes what it extracted. */
  datatype Move = Move(phase: Phase, outcome: Option<Outcome> := None, marks: bool := false, publishes: bool := false)

  function Ending(outcome: Outcome): Move {
    Move(Done, Some(outcome))
  }

  function AfterLoad(s: State, j: Job): Move
    requires j.phase.Loading?
  {
    var request := j.request;
    if Serves(s, request.identity, request.wheel) then Move(Done)
    else if !j.phase.locked then Move(Queuing)
    else Move(if request.checkNative then Probing else if request.allowExtraction then Consulting else Done, Some(Attempted))
  }

  function AfterProbe(request: Request, reply: Reply): Move {
    match reply
    case NoUrl => Ending(Failed)
    case Exists => Ending(FellBack)
    case Absent => Move(if request.allowExtraction then Consulting else Done)
  }

  predicate IsMove(step: Step) {
    !step.Lock? && !step.Lose? && !step.Forget? && !step.Write?
  }

  function RequestOf(s: State, step: Step): Request
    requires Enabled(s, step) && IsMove(step)
  {
    if step.Arrive? then step.request else s.jobs[step.job].request
  }

  function MoveOf(s: State, step: Step): Move
    requires Enabled(s, step) && IsMove(step)
  {
    match step
    case Arrive(_, _) => Move(Loading(false))
    case Load(job) => AfterLoad(s, s.jobs[job])
    case Locked(_) => Move(Loading(true))
    case Probe(job, reply) => AfterProbe(s.jobs[job].request, reply)
    case Consult(job, hasUrl) =>
      var request := s.jobs[job].request;
      if (request.identity, request.wheel) in s.failed || !hasUrl then Ending(Failed) else Move(Extracting)
    case Publish(_) => Ending(Succeeded).(publishes := true)
    case Fail(_) => Ending(Failed).(marks := true)
    case Abort(job) => if Attempting(s.jobs[job].phase) then Ending(GaveUp) else Move(Done)
  }

  function Moved(s: State, job: nat, request: Request, m: Move): State {
    s.(jobs := s.jobs[job := Job(request, m.phase)],
       tally := if m.outcome.Some? then Counted(s.tally, request.recovery, m.outcome.value) else s.tally,
       failed := if m.marks then s.failed + {(request.identity, request.wheel)} else s.failed,
       stored := if m.publishes then s.stored[request.identity := request.wheel] else s.stored,
       extracted := if m.publishes then Bumped(s.extracted, request.identity) else s.extracted)
  }

  function Apply(s: State, step: Step): State
    requires Enabled(s, step)
  {
    match step
    case Lock(lockStep) =>
      var s' := s.(locker := KeyLocker.Apply(s.locker, lockStep));
      var job := lockStep.task;
      if lockStep.Cancel? && job in s.jobs then Moved(s', job, s.jobs[job].request, Move(Done)) else s'
    case Lose(identity) => s.(stored := s.stored - {identity}, lost := Bumped(s.lost, identity))
    case Forget(failure) => s.(failed := s.failed - {failure})
    case Write(identity, wheel) => s.(stored := s.stored[identity := wheel], foreign := Bumped(s.foreign, identity))
    case _ => Moved(s, step.job, RequestOf(s, step), MoveOf(s, step))
  }

  ghost predicate Run(s: State, steps: seq<Step>, end: State)
    decreases |steps|
  {
    if steps == [] then end == s
    else Enabled(s, steps[0]) && Run(Apply(s, steps[0]), steps[1..], end)
  }

  // -------------------------------------------------------------------- accounting

  function InFlight(s: State): set<nat> {
    set job | job in s.jobs && s.jobs[job].request.recovery && Attempting(s.jobs[job].phase)
  }

  ghost predicate Balanced(s: State) {
    var t := s.tally;
    t.attempts == t.successes + t.failures + t.natives + t.abandoned + |InFlight(s)|
  }

  ghost predicate RecoveriesMayExtract(s: State) {
    forall job :: job in s.jobs && s.jobs[job].request.recovery ==> s.jobs[job].request.allowExtraction
  }

  /** A move opens an attempt, closes one with an outcome, or does neither. */
  predicate Fair(before: bool, m: Move) {
    if m.outcome == Some(Attempted) then !before && Attempting(m.phase)
    else if m.outcome.Some? then before && !Attempting(m.phase)
    else before == Attempting(m.phase)
  }

  predicate IsAttempting(s: State, job: nat) {
    job in s.jobs && Attempting(s.jobs[job].phase)
  }

  lemma MoveIsFair(s: State, step: Step)
    requires Enabled(s, step) && IsMove(step) && RequestOf(s, step).allowExtraction
    ensures Fair(IsAttempting(s, step.job), MoveOf(s, step))
  {
  }

  lemma InFlightAfter(s: State, job: nat, request: Request, m: Move)
    requires job in s.jobs ==> s.jobs[job].request == request
    ensures InFlight(Moved(s, job, request, m))
      == if request.recovery && Attempting(m.phase) then InFlight(s) + {job} else InFlight(s) - {job}
    ensures job in InFlight(s) <==> (request.recovery && IsAttempting(s, job))
  {
    hide Counted;
    hide Bumped;
  }

  lemma MoveKeepsBalance(s: State, job: nat, request: Request, m: Move)
    requires Balanced(s) && (job in s.jobs ==> s.jobs[job].request == request)
    requires request.recovery ==> Fair(IsAttempting(s, job), m)
    ensures Balanced(Moved(s, job, request, m))
  {
    InFlightAfter(s, job, request, m);
    hide InFlight;
  }

  lemma AccountPreserved(s: State, step: Step)
    requires Balanced(s) && RecoveriesMayExtract(s) && Enabled(s, step)
    ensures Balanced(Apply(s, step)) && RecoveriesMayExtract(Apply(s, step))
  {
    if IsMove(step) {
      if RequestOf(s, step).recovery {
        MoveIsFair(s, step);
      }
      hide MoveOf;
      hide Balanced;
      MoveKeepsBalance(s, step.job, RequestOf(s, step), MoveOf(s, step));
    } else if step.Lock? {
      LockStepKeepsBalance(s, step.step);
    } else {
      assert InFlight(Apply(s, step)) == InFlight(s);
    }
  }

  lemma LockStepKeepsBalance(s: State, step: KeyLocker.Step)
    requires Balanced(s) && RecoveriesMayExtract(s) && Enabled(s, Lock(step))
    ensures Balanced(Apply(s, Lock(step))) && RecoveriesMayExtract(Apply(s, Lock(step)))
  {
    var s' := s.(locker := KeyLocker.Apply(s.locker, step));
    hide KeyLocker.Apply;
    hide Bumped;
    assert InFlight(s') == InFlight(s);
    if step.Cancel? && step.task in s.jobs {
      MoveKeepsBalance(s', step.task, s.jobs[step.task].request, Move(Done));
    }
  }

  lemma {:induction false} RunKeepsAccount(s: State, steps: seq<Step>, end: State)
    requires Balanced(s) && RecoveriesMayExtract(s) && Run(s, steps, end)
    ensures Balanced(end)
    decreases |steps|
  {
    if steps != [] {
      AccountPreserved(s, steps[0]);
      RunKeepsAccount(Apply(s, steps[0]), steps[1..], end);
    }
  }

  /** Over every run each recovery attempt is a success, a failure, a native fallback,
      abandoned, or still in flight. */
  lemma AttemptsAddUp(steps: seq<Step>, end: State)
    requires Run(INITIAL, steps, end)
    ensures var t := end.tally;
      t.attempts == t.successes + t.failures + t.natives + t.abandoned + |InFlight(end)|
  {
    RunKeepsAccount(INITIAL, steps, end);
  }

  // --------------------------------------------------------------- one extraction

  /** What the callers that ask about an artifact name: all the same wheel hash, or all
      none, or some of them one hash and the others none. */
  datatype Callers = All(wheel: Option<string>) | Either(hash: string)

  predicate Among(callers: Callers, wheel: Option<string>) {
    match callers
    case All(w) => wheel == w
    case Either(hash) => wheel == None || wheel == Some(hash)
  }

  ghost predicate Uniform(s: State, identity: string, callers: Callers) {
    forall job :: job in s.jobs && s.jobs[job].request.identity == identity ==> Among(callers, s.jobs[job].request.wheel)
  }

  /** How many extractions the loss of one record can cost. */
  function Cost(callers: Callers): nat {
    if callers.All? then 1 else 2
  }

  /** How many extractions the stored record can have taken: a record without the hash
      that some callers name may have to be extracted again for them. */
  function Credit(s: State, identity: string, callers: Callers): nat {
    match callers
    case All(wheel) => Unit(Serves(s, identity, wheel))
    case Either(hash) => if identity !in s.stored then 0 else if s.stored[identity] == Some(hash) then 2 else 1
  }

  /** The credit that can be left when a caller naming this hash misses. */
  function Leftover(callers: Callers, wheel: Option<string>): nat {
    Unit(callers.Either? && wheel.Some?)
  }

  ghost predicate Guarded(s: State) {
    forall job :: job in s.jobs && Critical(s.jobs[job].phase) ==>
      KeyLocker.InPhase(s.locker, job, KeyLocker.Holding) && s.locker.tasks[job].key == s.jobs[job].request.identity
  }

  /** Extractions of an artifact beyond those that losses and other writers account for. */
  function Surplus(s: State, identity: string, callers: Callers): int {
    Count(s.extracted, identity) - Cost(callers) * Count(s.lost, identity) - Count(s.foreign, identity)
  }

  ghost predicate Thrifty(s: State, identity: string, callers: Callers) {
    && Surplus(s, identity, callers) <= Credit(s, identity, callers)
    && (forall job :: IsAttempting(s, job) && s.jobs[job].request.identity == identity ==>
          Surplus(s, identity, callers) <= Leftover(callers, s.jobs[job].request.wheel))
  }

  /** Only a job that has just taken the lock becomes critical. */
  lemma StaysCritical(s: State, step: Step)
    requires Enabled(s, step) && IsMove(step) && Critical(MoveOf(s, step).phase) && !step.Locked?
    ensures step.job in s.jobs && Critical(s.jobs[step.job].phase)
  {
  }

  lemma MoveKeepsGuard(s: State, job: nat, request: Request, m: Move)
    requires Guarded(s)
    requires Critical(m.phase) ==> KeyLocker.InPhase(s.locker, job, KeyLocker.Holding) && s.locker.tasks[job].key == request.identity
    ensures Guarded(Moved(s, job, request, m))
  {
    hide Counted;
    hide Bumped;
  }

  lemma LockStepKeepsGuard(s: State, step: KeyLocker.Step)
    requires Guarded(s) && Enabled(s, Lock(step))
    ensures Guarded(Apply(s, Lock(step)))
  {
    hide Counted;
    hide Bumped;
  }

  lemma GuardPreserved(s: State, step: Step)
    requires Guarded(s) && Enabled(s, step)
    ensures Guarded(Apply(s, step))
  {
    if IsMove(step) {
      if Critical(MoveOf(s, step).phase) && !step.Locked? {
        StaysCritical(s, step);
      }
      if !step.Locked? {
        hide MoveOf;
      }
      MoveKeepsGuard(s, step.job, RequestOf(s, step), MoveOf(s, step));
    } else if step.Lock? {
      LockStepKeepsGuard(s, step.step);
    }
  }

  lemma OneAttemptEach(s: State, i: nat, j: nat)
    requires KeyLocker.Inv(s.locker) && Guarded(s) && i in s.jobs && j in s.jobs
    requires Critical(s.jobs[i].phase) && Critical(s.jobs[j].phase) && s.jobs[i].request.identity == s.jobs[j].request.identity
    ensures i == j
  {
    KeyLocker.HolderIsUnique(s.locker, i, j);
  }

  /** Only an attempt publishes, and only after a miss under the lock is there an attempt. */
  lemma MoveIsEarned(s: State, step: Step)
    requires Enabled(s, step) && IsMove(step)
    ensures var m, request := MoveOf(s, step), RequestOf(s, step);
      && (m.publishes ==> IsAttempting(s, step.job) && !Attempting(m.phase))
      && (Attempting(m.phase) && !IsAttempting(s, step.job) ==> !Serves(s, request.identity, request.wheel))
  {
  }

  /** A caller that is not served finds no more credit than is left over for it. */
  lemma MissLeaves(s: State, identity: string, callers: Callers, wheel: Option<string>)
    requires Among(callers, wheel) && !Serves(s, identity, wheel)
    ensures Credit(s, identity, callers) <= Leftover(callers, wheel)
  {
  }

  lemma QuietMoveKeepsThrift(s: State, job: nat, request: Request, m: Move, identity: string, callers: Callers)
    requires Thrifty(s, identity, callers) && !m.publishes
    requires job in s.jobs ==> s.jobs[job].request == request
    requires request.identity == identity && Attempting(m.phase) && !IsAttempting(s, job) ==>
      Among(callers, request.wheel) && !Serves(s, identity, request.wheel)
    ensures Thrifty(Moved(s, job, request, m), identity, callers)
  {
    hide Counted;
    var s' := Moved(s, job, request, m);
    assert Surplus(s', identity, callers) == Surplus(s, identity, callers);
    if request.identity == identity && Attempting(m.phase) && !IsAttempting(s, job) {
      MissLeaves(s, identity, callers, request.wheel);
    }
    hide Surplus;
    hide Leftover;
    forall j | IsAttempting(s', j) && s'.jobs[j].request.identity == identity
      ensures Surplus(s', identity, callers) <= Leftover(callers, s'.jobs[j].request.wheel)
    {
      assert j != job ==> IsAttempting(s, j);
    }
  }

  /** No other attempt for the same artifact is under way. */
  ghost predicate OnlyAttempt(s: State, job: nat)
    requires job in s.jobs
  {
    forall j :: j != job && IsAttempting(s, j) ==> s.jobs[j].request.identity != s.jobs[job].request.identity
  }

  lemma AttemptsAreAlone(s: State, job: nat)
    requires KeyLocker.Inv(s.locker) && Guarded(s) && IsAttempting(s, job)
    ensures OnlyAttempt(s, job)
  {
    forall j | j != job && IsAttempting(s, j)
      ensures s.jobs[j].request.identity != s.jobs[job].request.identity
    {
      if s.jobs[j].request.identity == s.jobs[job].request.identity {
        OneAttemptEach(s, j, job);
      }
    }
  }

  lemma PublishKeepsThrift(s: State, job: nat, m: Move, identity: string, callers: Callers)
    requires Thrifty(s, identity, callers) && Uniform(s, identity, callers)
    requires m.publishes && IsAttempting(s, job) && !Attempting(m.phase) && OnlyAttempt(s, job)
    ensures Thrifty(Moved(s, job, s.jobs[job].request, m), identity, callers)
  {
    var request := s.jobs[job].request;
    var s' := Moved(s, job, request, m);
    SurplusAfterPublish(s, job, request, m, identity, callers);
    hide Counted;
    hide Surplus;
    forall j | IsAttempting(s', j) && s'.jobs[j].request.identity == identity
      ensures Surplus(s', identity, callers) <= Leftover(callers, s'.jobs[j].request.wheel)
    {
      assert IsAttempting(s, j) && j != job;
    }
  }

  lemma SurplusAfterPublish(s: State, job: nat, request: Request, m: Move, identity: string, callers: Callers)
    requires m.publishes
    ensures Surplus(Moved(s, job, request, m), identity, callers) == Surplus(s, identity, callers) + Unit(identity == request.identity)
  {
    hide Counted;
  }

  lemma LockStepKeepsThrift(s: State, step: KeyLocker.Step, identity: string, callers: Callers)
    requires Thrifty(s, identity, callers) && Enabled(s, Lock(step))
    ensures Thrifty(Apply(s, Lock(step)), identity, callers)
  {
    var s' := s.(locker := KeyLocker.Apply(s.locker, step));
    hide KeyLocker.Apply;
    hide KeyLocker.Enabled;
    assert Thrifty(s', identity, callers);
    if step.Cancel? && step.task in s.jobs {
      QuietMoveKeepsThrift(s', step.task, s.jobs[step.task].request, Move(Done), identity, callers);
    }
  }

  lemma SurplusAfterStoreStep(s: State, step: Step, identity: string, callers: Callers)
    requires Enabled(s, step) && (step.Lose? || step.Forget? || step.Write?)
    ensures Surplus(Apply(s, step), identity, callers) == Surplus(s, identity, callers)
      - if step.Forget? || step.identity != identity then 0 else if step.Lose? then Cost(callers) else 1
  {
    if step.Lose? && step.identity == identity {
      assert Count(Apply(s, step).lost, identity) == Count(s.lost, identity) + 1;
    }
  }

  lemma StoreStepKeepsThrift(s: State, step: Step, identity: string, callers: Callers)
    requires Thrifty(s, identity, callers) && Enabled(s, step) && (step.Lose? || step.Forget? || step.Write?)
    ensures Thrifty(Apply(s, step), identity, callers)
  {
    var s' := Apply(s, step);
    SurplusAfterStoreStep(s, step, identity, callers);
    hide Surplus;
    assert s'.jobs == s.jobs;
  }

  lemma ThriftPreserved(s: State, step: Step, identity: string, callers: Callers)
    requires KeyLocker.Inv(s.locker) && Guarded(s) && Thrifty(s, identity, callers) && Enabled(s, step)
    requires Uniform(s, identity, callers) && Uniform(Apply(s, step), identity, callers)
    ensures Thrifty(Apply(s, step), identity, callers)
  {
    if IsMove(step) {
      MoveIsEarned(s, step);
      if MoveOf(s, step).publishes {
        AttemptsAreAlone(s, step.job);
      }
      hide KeyLocker.Inv;
      hide MoveOf;
      var m, request := MoveOf(s, step), RequestOf(s, step);
      assert Apply(s, step).jobs[step.job].request == request;
      hide Guarded;
      hide Thrifty;
      if m.publishes {
        PublishKeepsThrift(s, step.job, m, identity, callers);
      } else {
        QuietMoveKeepsThrift(s, step.job, request, m, identity, callers);
      }
    } else if step.Lock? {
      LockStepKeepsThrift(s, step.step, identity, callers);
    } else {
      StoreStepKeepsThrift(s, step, identity, callers);
    }
  }

  ghost predicate Inv(s: State, identity: string, callers: Callers) {
    KeyLocker.Inv(s.locker) && Guarded(s) && (Uniform(s, identity, callers) ==> Thrifty(s, identity, callers))
  }

  lemma UniformBefore(s: State, step: Step, identity: string, callers: Callers)
    requires Enabled(s, step) && Uniform(Apply(s, step), identity, callers)
    ensures Uniform(s, identity, callers)
  {
    var s' := Apply(s, step);
    forall job | job in s.jobs && s.jobs[job].request.identity == identity
      ensures Among(callers, s.jobs[job].request.wheel)
    {
      assert job in s'.jobs && s'.jobs[job].request == s.jobs[job].request;
    }
  }

  lemma InvPreserved(s: State, step: Step, identity: string, callers: Callers)
    requires Inv(s, identity, callers) && Enabled(s, step)
    ensures Inv(Apply(s, step), identity, callers)
  {
    var s' := Apply(s, step);
    assert s'.locker == if step.Lock? then KeyLocker.Apply(s.locker, step.step) else s.locker;
    hide Guarded;
    hide Thrifty;
    GuardPreserved(s, step);
    if step.Lock? {
      KeyLocker.InvPreserved(s.locker, step.step);
    }
    if Uniform(s', identity, callers) {
      UniformBefore(s, step, identity, callers);
      ThriftPreserved(s, step, identity, callers);
    }
  }

  lemma {:induction false} RunKeepsInv(s: State, steps: seq<Step>, end: State, identity: string, callers: Callers)
    requires Inv(s, identity, callers) && Run(s, steps, end)
    ensures Inv(end, identity, callers)
    decreases |steps|
  {
    if steps != [] {
      InvPreserved(s, steps[0], identity, callers);
      RunKeepsInv(Apply(s, steps[0]), steps[1..], end, identity, callers);
    }
  }

  lemma ReachableKeepsInv(steps: seq<Step>, end: State, identity: string, callers: Callers)
    requires Run(INITIAL, steps, end)
    ensures Inv(end, identity, callers)
  {
    assert KeyLocker.Inv(KeyLocker.INITIAL);
    assert Surplus(INITIAL, identity, callers) == 0;
    hide KeyLocker.Inv;
    hide Run;
    RunKeepsInv(INITIAL, steps, end, identity, callers);
  }

  /** Over every run in which the callers of one artifact agree on its wheel hash, or on
      naming none, whatever the callers of others do: it is extracted successfully at most
      once more often than its record was lost or written by another process; so once,
      while the record stays live. If some callers name one hash and others none, it is
      at most twice, and twice again for each loss. */
  lemma ExtractedOnce(steps: seq<Step>, end: State, identity: string, callers: Callers)
    requires Run(INITIAL, steps, end) && Uniform(end, identity, callers)
    ensures var lost, foreign := Count(end.lost, identity), Count(end.foreign, identity);
      Count(end.extracted, identity) <= if callers.All? then 1 + lost + foreign else 2 + 2 * lost + foreign
  {
    ReachableKeepsInv(steps, end, identity, callers);
    hide KeyLocker.Inv;
    hide Guarded;
    hide Run;
    assert Thrifty(end, identity, callers);
  }

  /** And no two attempts for one artifact ever overlap. */
  lemma AttemptsNeverOverlap(steps: seq<Step>, end: State, i: nat, j: nat)
    requires Run(INITIAL, steps, end) && IsAttempting(end, i) && IsAttempting(end, j)
    requires end.jobs[i].request.identity == end.jobs[j].request.identity
    ensures i == j
  {
    ReachableKeepsInv(steps, end, "", All(None));
    hide Run;
    OneAttemptEach(end, i, j);
  }

  // --------------------------------------------------------------------- failure markers

  /** What each step of a job comes to. A record serves callers without a hash or with its
      own; a miss leads to the lock, and under it to an attempt. An extraction is begun exactly
      without a failure marker and with a URL; a success stores the record, a failure leaves
      the marker; and a native file or a missing URL ends the attempt. */
  lemma StepsExactly(s: State, step: Step)
    requires Enabled(s, step) && (step.Load? || step.Consult? || step.Publish? || step.Fail? || step.Probe?)
    ensures var before, request, s' := s.jobs[step.job].phase, s.jobs[step.job].request, Apply(s, step);
      var failure, phase := (request.identity, request.wheel), s'.jobs[step.job].phase;
      && (s'.stored, s'.extracted) == (if step.Publish? then (s.stored[request.identity := request.wheel], s'.extracted) else (s.stored, s.extracted))
      && Count(s'.extracted, request.identity) == Count(s.extracted, request.identity) + (if step.Publish? then 1 else 0)
      && s'.failed == (if step.Fail? then s.failed + {failure} else s.failed)
      && match step {
        case Load(_) =>
          phase == if request.identity in s.stored && (request.wheel.None? || s.stored[request.identity] == request.wheel) then Done
                   else if before != Loading(true) then Queuing
                   else if request.checkNative then Probing else if request.allowExtraction then Consulting else Done
        case Consult(_, hasUrl) => phase == if failure !in s.failed && hasUrl then Extracting else Done
        case Probe(_, reply) => phase == if reply.Absent? && request.allowExtraction then Consulting else Done
        case _ => phase == Done
      }
  {
    hide Counted;
  }

  /** What a recovery's step counts: attempts at the miss under the lock, and one outcome each. */
  lemma CountsExactly(s: State, step: Step)
    requires Enabled(s, step) && IsMove(step) && !step.Arrive? && s.jobs[step.job].request.recovery
    ensures var before, t, t' := s.jobs[step.job], s.tally, Apply(s, step).tally;
      var missed := before.phase == Loading(true) && !Serves(s, before.request.identity, before.request.wheel);
      t' == match step
        case Load(_) => if missed then t.(attempts := t.attempts + 1) else t
        case Probe(_, reply) =>
          if reply.NoUrl? then t.(failures := t.failures + 1)
          else if reply.Exists? then t.(natives := t.natives + 1) else t
        case Consult(_, hasUrl) =>
          if (before.request.identity, before.request.wheel) in s.failed || !hasUrl then t.(failures := t.failures + 1) else t
        case Publish(_) => t.(successes := t.successes + 1)
        case Fail(_) => t.(failures := t.failures + 1)
        case Abort(_) => if before.phase.Loading? then t else t.(abandoned := t.abandoned + 1)
        case _ => t
  {
  }

  /** Nobody is extracting this wheel of this artifact. */
  ghost predicate NoneExtracting(s: State, failure: (string, Option<string>)) {
    forall job :: job in s.jobs && (s.jobs[job].request.identity, s.jobs[job].request.wheel) == failure ==> !s.jobs[job].phase.Extracting?
  }

  /** A move that begins no extraction of this wheel, and publishes none. */
  lemma MoveKeepsMarker(s: State, job: nat, request: Request, m: Move, failure: (string, Option<string>))
    requires failure in s.failed && NoneExtracting(s, failure)
    requires m.phase.Extracting? ==> (request.identity, request.wheel) != failure
    requires m.publishes ==> (request.identity, request.wheel) != failure
    ensures var s' := Moved(s, job, request, m);
      && failure in s'.failed && NoneExtracting(s', failure)
      && (Uniform(s', failure.0, All(failure.1)) ==> Count(s'.extracted, failure.0) == Count(s.extracted, failure.0))
  {
    hide Counted;
    assert Moved(s, job, request, m).jobs[job].request == request;
  }

  lemma MarkerHolds(s: State, step: Step, failure: (string, Option<string>))
    requires Enabled(s, step) && step != Forget(failure) && failure in s.failed && NoneExtracting(s, failure)
    ensures var s' := Apply(s, step);
      && failure in s'.failed && NoneExtracting(s', failure)
      && (Uniform(s', failure.0, All(failure.1)) ==> Count(s'.extracted, failure.0) == Count(s.extracted, failure.0))
  {
    if IsMove(step) {
      var m, request := MoveOf(s, step), RequestOf(s, step);
      assert m.publishes ==> step.Publish? && s.jobs[step.job].phase.Extracting?;
      assert m.phase.Extracting? ==> step.Consult? && (request.identity, request.wheel) !in s.failed;
      hide MoveOf;
      MoveKeepsMarker(s, step.job, request, m, failure);
      hide NoneExtracting;
      hide Uniform;
    } else if step.Lock? && step.step.Cancel? && step.step.task in s.jobs {
      hide KeyLocker.Apply;
      var locked := s.(locker := KeyLocker.Apply(s.locker, step.step));
      assert NoneExtracting(locked, failure);
      MoveKeepsMarker(locked, step.step.task, s.jobs[step.step.task].request, Move(Done), failure);
      hide NoneExtracting;
      hide Uniform;
    } else {
      assert Apply(s, step).jobs == s.jobs && Apply(s, step).extracted == s.extracted;
    }
  }

  /** Over every run from a state in which a failure is remembered and nobody is extracting
      that wheel: as long as the marker is not forgotten, whatever else happens, nobody
      begins to, and callers who all name that wheel cause no extraction of the artifact. */
  lemma {:induction false} FailureStopsExtraction(s: State, steps: seq<Step>, end: State, failure: (string, Option<string>))
    requires Run(s, steps, end) && Forget(failure) !in steps && failure in s.failed && NoneExtracting(s, failure)
    ensures failure in end.failed && NoneExtracting(end, failure)
    ensures Uniform(end, failure.0, All(failure.1)) ==>
      Uniform(s, failure.0, All(failure.1)) && Count(end.extracted, failure.0) == Count(s.extracted, failure.0)
    decreases |steps|
  {
    if steps != [] {
      MarkerHolds(s, steps[0], failure);
      hide NoneExtracting;
      FailureStopsExtraction(Apply(s, steps[0]), steps[1..], end, failure);
      if Uniform(end, failure.0, All(failure.1)) {
        UniformBefore(s, steps[0], failure.0, All(failure.1));
      }
    }
  }
}
