/** Concurrent requests for one project with the same Accept header: who fetches from
    upstream, how often, and what the shared cache does to the others. */
module SingleflightFill {
  import opened Wrappers
  import opened Counting
  import KeyLocker

  /** The project's entries, seen from the requested format. */
  datatype Slot = NotFound | Primary | Other | StalePrimary | StaleOther

  datatype Look =
    | Pair
    | Opposite
    | Converting(source: string)

  datatype Phase =
    | Looking(locked: bool, look: Look)
    | Queuing
    | Missed
    | Fetching(again: bool)
    | Answered(served: bool)

  datatype Upstream =
    | Page(wanted: bool, body: string, converted: string)
    | Missing
    | NotModified(target: Option<string>)
    | Failed

  /** `pass` says that the client wants JSON but takes HTML too. The counters are
      observations only: upstream requests started, second requests after a 304 with
      nothing left to serve, outcomes that filled nothing, entries lost to expiry or
      eviction, and writes by anybody else. `holder` is the request past the lock. */
  datatype State = State(
    pass: bool, cache: map<Slot, string>, phases: map<nat, Phase>, locker: KeyLocker.State, holder: Option<nat>,
    started: nat, again: nat, unfilled: nat, lost: nat, foreign: nat)

  /** Nobody is asking for the project, and this is what the cache holds. */
  function Quiet(pass: bool, cache: map<Slot, string>): State {
    State(pass, cache, map[], KeyLocker.INITIAL, None, 0, 0, 0, 0, 0)
  }

  const FILL := "fill"

  datatype Step =
    | Arrive(request: nat)
    | LookUpPair(request: nat)
    | LookUpOpposite(request: nat)
    | Convert(request: nat, target: Option<string>)
    | Lock(step: KeyLocker.Step)
    | Locked(request: nat)
    | Fetch(request: nat)
    | Complete(request: nat, reply: Upstream)
    | Abort(request: nat)
    | Lose(slot: Slot)
    | Write(slot: Slot, value: string)

  predicate Filled(cache: map<Slot, string>, slot: Slot) {
    slot in cache && cache[slot] != ""
  }

  predicate PairAnswers(cache: map<Slot, string>) {
    NotFound in cache || Filled(cache, Primary)
  }

  /** The cache alone answers such a request. */
  predicate Answers(pass: bool, cache: map<Slot, string>) {
    PairAnswers(cache) || (pass && Filled(cache, Other))
  }

  function Get(cache: map<Slot, string>, slot: Slot): Option<string> {
    if slot in cache then Some(cache[slot]) else None
  }

  predicate At(s: State, r: nat, phase: Phase) {
    r in s.phases && s.phases[r] == phase
  }

  predicate Critical(phase: Phase) {
    (phase.Looking? && phase.locked) || phase.Missed? || phase.Fetching?
  }

  /** A request takes the project's lock once, keeps it until it has its answer, and
      may be cancelled while it waits. Other tasks use the locks as they like. */
  predicate Disciplined(s: State, step: KeyLocker.Step) {
    step.task in s.phases ==>
      match step
      case Enter(r, key) => s.phases[r].Queuing? && key == FILL
      case Cancel(r) => s.phases[r].Queuing?
      case Release(r) => s.phases[r].Answered?
      case _ => true
  }

  /** A converted page is never empty. */
  predicate Printed(reply: Upstream) {
    match reply
    case Page(_, _, converted) => converted != ""
    case NotModified(target) => target != Some("")
    case _ => true
  }

  predicate Enabled(s: State, step: Step) {
    match step
    case Arrive(r) => r !in s.phases && r !in s.locker.tasks
    case LookUpPair(r) => r in s.phases && s.phases[r].Looking? && s.phases[r].look.Pair?
    case LookUpOpposite(r) => r in s.phases && s.phases[r].Looking? && s.phases[r].look.Opposite?
    case Convert(r, target) =>
      r in s.phases && s.phases[r].Looking? && s.phases[r].look.Converting? && target != Some("")
    case Lock(step) => KeyLocker.Enabled(s.locker, step) && Disciplined(s, step)
    case Locked(r) => At(s, r, Queuing) && KeyLocker.InPhase(s.locker, r, KeyLocker.Holding) && s.locker.tasks[r].key == FILL
    case Fetch(r) => At(s, r, Missed)
    case Complete(r, reply) => r in s.phases && s.phases[r].Fetching? && Printed(reply)
    case Abort(r) => r in s.phases && (s.phases[r].Looking? || s.phases[r].Missed? || s.phases[r].Fetching?)
    case Lose(slot) => slot in s.cache
    case Write(_, value) => value != ""
  }

  // ------------------------------------------------------------------- transitions

  /** What a request does in one step: where it stands after it, the cache it leaves,
      the upstream request it starts (possibly a second one), or the exchange it ends
      without filling anything. */
  datatype Move = Move(phase: Phase, cache: map<Slot, string>, started: nat := 0, again: nat := 0, unfilled: nat := 0)

  function AfterMiss(locked: bool): Phase {
    if locked then Missed else Queuing
  }

  function AfterPair(s: State, phase: Phase): Phase
    requires phase.Looking?
  {
    if PairAnswers(s.cache) then Answered(true) else phase.(look := Opposite)
  }

  function AfterOpposite(s: State, phase: Phase): Phase
    requires phase.Looking?
  {
    if !Filled(s.cache, Other) then AfterMiss(phase.locked)
    else if s.pass then Answered(true)
    else phase.(look := Converting(s.cache[Other]))
  }

  /** The converted body is published only over the source it was made from. */
  function Converted(s: State, phase: Phase, target: Option<string>): Move
    requires phase.Looking? && phase.look.Converting?
  {
    if target.Some? && Get(s.cache, Other) == Some(phase.look.source)
    then Move(Answered(true), s.cache[Primary := target.value])
    else Move(AfterMiss(phase.locked), s.cache)
  }

  function Refreshed(cache: map<Slot, string>, other: Option<string>): map<Slot, string> {
    if other.Some? && other.value != "" then cache[Other := other.value] else cache
  }

  /** The cache after a 304, when there is a stale body to make current. */
  function Revalidated(s: State, target: Option<string>): Option<map<Slot, string>> {
    var stale, other := Get(s.cache, StalePrimary), Get(s.cache, StaleOther);
    if stale.Some? then Some(Refreshed(s.cache[Primary := stale.value], other))
    else if other.None? then None
    else if s.pass then Some(s.cache[Other := other.value])
    else if target.Some? then Some(Refreshed(s.cache[StaleOther := other.value][Primary := target.value], other))
    else None
  }

  function Stored(s: State, reply: Upstream): map<Slot, string>
    requires reply.Page?
  {
    if reply.wanted then s.cache[Primary := reply.body][StalePrimary := reply.body]
    else if s.pass then s.cache[Other := reply.body][StaleOther := reply.body]
    else s.cache[Other := reply.body][StaleOther := reply.body][Primary := reply.converted][StalePrimary := reply.converted]
  }

  /** The exchange ends with this cache, which may still not answer such a request. */
  function Ended(pass: bool, cache: map<Slot, string>): Move {
    Move(Answered(true), cache, unfilled := if Answers(pass, cache) then 0 else 1)
  }

  function Completed(s: State, second: bool, reply: Upstream): Move {
    match reply
    case Page(_, _, _) => Ended(s.pass, Stored(s, reply))
    case Missing => Ended(s.pass, s.cache[NotFound := "1"])
    case Failed => Move(Answered(false), s.cache, unfilled := 1)
    case NotModified(target) =>
      var refreshed := Revalidated(s, target);
      if second then Move(Answered(false), s.cache, unfilled := 1)
      else if refreshed.Some? then Ended(s.pass, refreshed.value)
      else Move(Fetching(true), s.cache, started := 1, again := 1)
  }

  predicate IsMove(step: Step) {
    !step.Lock? && !step.Lose? && !step.Write?
  }

  function MoveOf(s: State, step: Step): Move
    requires Enabled(s, step) && IsMove(step)
  {
    match step
    case Arrive(_) => Move(Looking(false, Pair), s.cache)
    case LookUpPair(r) => Move(AfterPair(s, s.phases[r]), s.cache)
    case LookUpOpposite(r) => Move(AfterOpposite(s, s.phases[r]), s.cache)
    case Convert(r, target) => Converted(s, s.phases[r], target)
    case Locked(_) => Move(Looking(true, Pair), s.cache)
    case Fetch(_) => Move(Fetching(false), s.cache, started := 1)
    case Complete(r, reply) => Completed(s, s.phases[r].again, reply)
    case Abort(r) => Move(Answered(false), s.cache, unfilled := if s.phases[r].Fetching? then 1 else 0)
  }

  /** Only a critical phase keeps a request the holder. */
  function Moved(s: State, r: nat, m: Move): State {
    s.(phases := s.phases[r := m.phase],
       holder := if Critical(m.phase) then Some(r) else if s.holder == Some(r) then None else s.holder,
       cache := m.cache, started := s.started + m.started, again := s.again + m.again, unfilled := s.unfilled + m.unfilled)
  }

  function Apply(s: State, step: Step): State
    requires Enabled(s, step)
  {
    match step
    case Lock(lockStep) =>
      var s' := s.(locker := KeyLocker.Apply(s.locker, lockStep));
      if lockStep.Cancel? && lockStep.task in s.phases then Moved(s', lockStep.task, Move(Answered(false), s.cache)) else s'
    case Lose(slot) => s.(cache := s.cache - {slot}, lost := s.lost + 1)
    case Write(slot, value) => s.(cache := s.cache[slot := value], foreign := s.foreign + 1)
    case _ => Moved(s, step.request, MoveOf(s, step))
  }

  ghost predicate Run(s: State, steps: seq<Step>, end: State)
    decreases |steps|
  {
    if steps == [] then end == s
    else Enabled(s, steps[0]) && Run(Apply(s, steps[0]), steps[1..], end)
  }

  // ------------------------------------------------------------------- invariants

  /** Only the holder of the project's lock is past the lock. */
  ghost predicate OneHolder(s: State) {
    && (forall r :: r in s.phases && Critical(s.phases[r]) ==>
          s.holder == Some(r) && KeyLocker.InPhase(s.locker, r, KeyLocker.Holding) && s.locker.tasks[r].key == FILL)
    && (s.holder.Some? ==> s.holder.value in s.phases && Critical(s.phases[s.holder.value]))
  }

  /** The upstream request that is under way, or whose result a request in this phase
      can still be served. */
  function CreditIn(phase: Phase, pass: bool, cache: map<Slot, string>): nat {
    match phase
    case Fetching(_) => 1
    case Missed => 0
    case Looking(true, Opposite) => Unit(pass && Filled(cache, Other))
    case Looking(true, Converting(_)) => 0
    case _ => Unit(Answers(pass, cache))
  }

  function Credit(s: State): nat {
    if s.holder.Some? && s.holder.value in s.phases then CreditIn(s.phases[s.holder.value], s.pass, s.cache)
    else Unit(Answers(s.pass, s.cache))
  }

  ghost predicate Accounted(s: State) {
    s.started <= s.lost + s.unfilled + s.again + Credit(s)
  }

  predicate Owes(phase: Phase) {
    phase.Fetching? || phase == Answered(true) || (phase.Looking? && phase.look.Converting?)
  }

  /** Whatever current entry there is came from an upstream request or from another writer. */
  ghost predicate Traced(s: State) {
    && (NotFound in s.cache || Primary in s.cache || Other in s.cache ==> s.started + s.foreign > 0)
    && (forall r :: r in s.phases && Owes(s.phases[r]) ==> s.started + s.foreign > 0)
    && (forall r :: r in s.phases && s.phases[r].Fetching? ==> s.started > 0)
  }

  ghost predicate Inv(s: State) {
    KeyLocker.Inv(s.locker) && OneHolder(s) && Accounted(s)
  }

  lemma LockStepKeepsHolder(s: State, step: KeyLocker.Step)
    requires OneHolder(s) && Enabled(s, Lock(step))
    ensures OneHolder(Apply(s, Lock(step)))
  {
  }

  lemma LockedIsAlone(s: State, r: nat)
    requires KeyLocker.Inv(s.locker) && OneHolder(s) && Enabled(s, Locked(r))
    ensures s.holder.None?
  {
    hide KeyLocker.Inv;
    if s.holder.Some? {
      KeyLocker.HolderIsUnique(s.locker, s.holder.value, r);
      assert false;
    }
  }

  lemma MoveKeepsHolder(s: State, r: nat, m: Move)
    requires OneHolder(s)
    requires Critical(m.phase) ==> (s.holder == Some(r) || s.holder.None?)
    requires Critical(m.phase) ==> KeyLocker.InPhase(s.locker, r, KeyLocker.Holding) && s.locker.tasks[r].key == FILL
    ensures OneHolder(Moved(s, r, m))
  {
  }

  lemma StaysCritical(s: State, step: Step)
    requires IsMove(step) && Enabled(s, step) && Critical(MoveOf(s, step).phase) && !step.Locked?
    ensures step.request in s.phases && Critical(s.phases[step.request])
  {
  }

  lemma MovePreservesHolder(s: State, step: Step)
    requires OneHolder(s) && IsMove(step) && Enabled(s, step)
    requires step.Locked? ==> s.holder.None?
    ensures OneHolder(Apply(s, step))
  {
    if !step.Locked? && Critical(MoveOf(s, step).phase) {
      StaysCritical(s, step);
    }
    if !step.Locked? {
      hide MoveOf;
    }
    MoveKeepsHolder(s, step.request, MoveOf(s, step));
  }

  lemma HolderPreserved(s: State, step: Step)
    requires KeyLocker.Inv(s.locker) && OneHolder(s) && Enabled(s, step)
    ensures OneHolder(Apply(s, step))
  {
    if step.Locked? {
      LockedIsAlone(s, step.request);
    }
    hide KeyLocker.Inv;
    if IsMove(step) {
      MovePreservesHolder(s, step);
    } else if step.Lock? {
      LockStepKeepsHolder(s, step.step);
    }
  }

  /** No move of a request past the lock spends more credit than it accounts for. */
  lemma MoveIsPaid(s: State, step: Step)
    requires IsMove(step) && Enabled(s, step)
    requires step.request in s.phases && Critical(s.phases[step.request])
    ensures var before, m := s.phases[step.request], MoveOf(s, step);
      m.started + CreditIn(before, s.pass, s.cache) <= m.unfilled + m.again + CreditIn(m.phase, s.pass, m.cache)
  {
  }

  /** Before the lock, requests start nothing and can only add to what can be served. */
  lemma MoveIsFree(s: State, step: Step, phase: Phase)
    requires IsMove(step) && Enabled(s, step)
    requires step.request in s.phases ==> !Critical(s.phases[step.request])
    ensures var m := MoveOf(s, step);
      m.started == 0 && CreditIn(phase, s.pass, s.cache) <= CreditIn(phase, s.pass, m.cache)
      && (Answers(s.pass, s.cache) ==> Answers(s.pass, m.cache))
  {
  }

  lemma MovePreservesAccount(s: State, step: Step)
    requires OneHolder(s) && Accounted(s) && IsMove(step) && Enabled(s, step)
    requires step.Locked? ==> s.holder.None?
    ensures Accounted(Apply(s, step))
  {
    var r := step.request;
    if r in s.phases && Critical(s.phases[r]) {
      MoveIsPaid(s, step);
      hide MoveOf;
    } else {
      MoveIsFree(s, step, if s.holder.Some? && s.holder.value in s.phases then s.phases[s.holder.value] else Queuing);
      if Critical(MoveOf(s, step).phase) && !step.Locked? {
        StaysCritical(s, step);
      }
      if !step.Locked? {
        hide MoveOf;
      }
    }
  }

  lemma LockStepKeepsAccount(s: State, step: KeyLocker.Step)
    requires OneHolder(s) && Accounted(s) && Enabled(s, Lock(step))
    ensures Accounted(Apply(s, Lock(step)))
  {
  }

  lemma CacheStepKeepsAccount(s: State, step: Step)
    requires Accounted(s) && Enabled(s, step) && (step.Lose? || step.Write?)
    ensures Accounted(Apply(s, step))
  {
  }

  lemma AccountPreserved(s: State, step: Step)
    requires KeyLocker.Inv(s.locker) && OneHolder(s) && Accounted(s) && Enabled(s, step)
    ensures Accounted(Apply(s, step))
  {
    if step.Locked? {
      LockedIsAlone(s, step.request);
    }
    hide KeyLocker.Inv;
    hide Accounted;
    hide OneHolder;
    if IsMove(step) {
      MovePreservesAccount(s, step);
    } else if step.Lock? {
      LockStepKeepsAccount(s, step.step);
    } else {
      CacheStepKeepsAccount(s, step);
    }
  }

  lemma TracePreserved(s: State, step: Step)
    requires Traced(s) && Enabled(s, step)
    ensures Traced(Apply(s, step))
  {
  }

  lemma InvPreserved(s: State, step: Step)
    requires Inv(s) && Enabled(s, step)
    ensures Inv(Apply(s, step))
  {
    HolderPreserved(s, step);
    AccountPreserved(s, step);
    hide OneHolder;
    hide Accounted;
    if step.Lock? {
      KeyLocker.InvPreserved(s.locker, step.step);
    }
  }

  lemma {:induction false} RunKeepsInv(s: State, steps: seq<Step>, end: State)
    requires Inv(s) && Run(s, steps, end)
    ensures Inv(end)
    decreases |steps|
  {
    if steps != [] {
      InvPreserved(s, steps[0]);
      RunKeepsInv(Apply(s, steps[0]), steps[1..], end);
    }
  }

  lemma {:induction false} RunKeepsTrace(s: State, steps: seq<Step>, end: State)
    requires Traced(s) && Run(s, steps, end)
    ensures Traced(end)
    decreases |steps|
  {
    if steps != [] {
      TracePreserved(s, steps[0]);
      RunKeepsTrace(Apply(s, steps[0]), steps[1..], end);
    }
  }

  lemma ReachableKeepsInv(pass: bool, cache: map<Slot, string>, steps: seq<Step>, end: State)
    requires Run(Quiet(pass, cache), steps, end)
    ensures Inv(end)
  {
    assert KeyLocker.Inv(KeyLocker.INITIAL);
    hide KeyLocker.Inv;
    hide Run;
    RunKeepsInv(Quiet(pass, cache), steps, end);
  }

  /** Over every schedule no two upstream requests for the project overlap. */
  lemma FetchesNeverOverlap(pass: bool, cache: map<Slot, string>, steps: seq<Step>, end: State, q: nat, r: nat)
    requires Run(Quiet(pass, cache), steps, end)
    requires q in end.phases && end.phases[q].Fetching? && r in end.phases && end.phases[r].Fetching?
    ensures q == r
  {
    ReachableKeepsInv(pass, cache, steps, end);
    hide KeyLocker.Inv;
    hide Run;
  }

  /** Over every schedule, from any cache, with any losses and any other writers: after
      the first, each upstream request is owed to an entry lost, an exchange that filled
      nothing, or a 304 whose stale body had gone. */
  lemma FetchesAreAccountedFor(pass: bool, cache: map<Slot, string>, steps: seq<Step>, end: State)
    requires Run(Quiet(pass, cache), steps, end)
    ensures end.started <= 1 + end.lost + end.unfilled + end.again
  {
    ReachableKeepsInv(pass, cache, steps, end);
    hide KeyLocker.Inv;
    hide Run;
  }

  // ------------------------------------------------------------------ the stampede

  /** A reply that leaves something to serve: a 404, a page that is not empty, or a 304
      with a stale body that is not empty and can be served in some way. */
  predicate Cacheable(s: State, second: bool, reply: Upstream) {
    match reply
    case Missing => true
    case Page(_, body, _) => body != ""
    case NotModified(target) =>
      && !second
      && if StalePrimary in s.cache then s.cache[StalePrimary] != ""
         else Filled(s.cache, StaleOther) && (s.pass || target.Some?)
    case Failed => false
  }

  /** After such a reply the cache answers every such request, and the exchange counts
      neither as unfilled nor as in need of another one. */
  lemma CacheableFills(s: State, r: nat, reply: Upstream)
    requires Enabled(s, Complete(r, reply)) && Cacheable(s, s.phases[r].again, reply)
    ensures var s' := Apply(s, Complete(r, reply));
      && s'.phases[r] == Answered(true) && Answers(s'.pass, s'.cache)
      && s'.unfilled == s.unfilled && s'.again == s.again && s'.started == s.started
  {
  }

  /** Nothing expires or is evicted, no fetch is cut off, and the first reply, before
      which none has come, is cacheable. */
  predicate Calm(s: State, step: Step, replied: bool)
    requires Enabled(s, step)
  {
    match step
    case Lose(_) => false
    case Abort(r) => !s.phases[r].Fetching?
    case Complete(r, reply) => replied || Cacheable(s, s.phases[r].again, reply)
    case _ => true
  }

  ghost predicate CalmRun(s: State, steps: seq<Step>, end: State, replied: bool := false)
    decreases |steps|
  {
    if steps == [] then end == s
    else
      Enabled(s, steps[0]) && Calm(s, steps[0], replied)
      && CalmRun(Apply(s, steps[0]), steps[1..], end, replied || steps[0].Complete?)
  }

  /** Nothing was lost or in vain, and after the first reply nobody is fetching. */
  ghost predicate Frugal(s: State, replied: bool) {
    && s.lost == s.unfilled == s.again == 0
    && (replied ==> s.started > 0 && forall r :: r in s.phases ==> !s.phases[r].Fetching?)
  }

  /** After the first reply no request is ever past its last look at the cache. */
  lemma NoSecondFetch(s: State, r: nat)
    requires OneHolder(s) && Accounted(s) && Frugal(s, true)
    ensures !At(s, r, Missed)
  {
  }

  /** The only request that can be fetching is the holder. */
  lemma OnlyOneFetches(s: State, q: nat, r: nat)
    requires OneHolder(s) && q in s.phases && r in s.phases && s.phases[q].Fetching? && s.phases[r].Fetching?
    ensures q == r
  {
  }

  lemma CalmIsFrugal(s: State, step: Step, replied: bool)
    requires OneHolder(s) && Accounted(s) && Traced(s) && Frugal(s, replied) && Enabled(s, step) && Calm(s, step, replied)
    ensures Frugal(Apply(s, step), replied || step.Complete?)
  {
    if step.Complete? && !replied {
      var r := step.request;
      CacheableFills(s, r, step.reply);
      forall q | q in s.phases && s.phases[q].Fetching?
        ensures q == r
      {
        OnlyOneFetches(s, q, r);
      }
    } else if step.Fetch? && replied {
      NoSecondFetch(s, step.request);
    }
    hide OneHolder;
    hide Accounted;
  }

  lemma {:induction false} CalmRunIsFrugal(s: State, steps: seq<Step>, end: State, replied: bool)
    requires Inv(s) && Traced(s) && Frugal(s, replied) && CalmRun(s, steps, end, replied)
    ensures Run(s, steps, end)
    ensures end.lost == end.unfilled == end.again == 0
    decreases |steps|
  {
    if steps != [] {
      CalmIsFrugal(s, steps[0], replied);
      InvPreserved(s, steps[0]);
      TracePreserved(s, steps[0]);
      hide Inv;
      hide Traced;
      hide Frugal;
      CalmRunIsFrugal(Apply(s, steps[0]), steps[1..], end, replied || steps[0].Complete?);
    }
  }

  /** A stampede on a project with nothing current in the cache, whether or not stale
      copies are left: if the first reply is cacheable and nothing is lost, any number of
      concurrent requests cause at most one upstream request; and exactly one, once
      somebody is served and nobody else has filled in. */
  lemma StampedeFetchesOnce(pass: bool, cache: map<Slot, string>, steps: seq<Step>, end: State)
    requires cache.Keys <= {StalePrimary, StaleOther} && CalmRun(Quiet(pass, cache), steps, end)
    ensures end.started <= 1
    ensures forall r :: r in end.phases && end.phases[r] == Answered(true) ==> end.started == 1 || end.foreign > 0
  {
    var start := Quiet(pass, cache);
    ReachableKeepsInv(pass, cache, [], start);
    CalmRunIsFrugal(start, steps, end, false);
    FetchesAreAccountedFor(pass, cache, steps, end);
    hide CalmRun;
    hide Inv;
    RunKeepsTrace(start, steps, end);
    forall r | r in end.phases && end.phases[r] == Answered(true)
      ensures end.started + end.foreign > 0
    {
      assert Owes(end.phases[r]);
    }
  }

  // ------------------------------------------------------------------- one request

  /** The upstream requests that a request starts in one step. */
  function Starts(s: State, step: Step, r: nat): int
    requires Enabled(s, step)
  {
    if IsMove(step) && step.request == r then Apply(s, step).started - s.started else 0
  }

  ghost function FetchesOf(s: State, steps: seq<Step>, end: State, r: nat): int
    requires Run(s, steps, end)
    decreases |steps|
  {
    if steps == [] then 0 else Starts(s, steps[0], r) + FetchesOf(Apply(s, steps[0]), steps[1..], end, r)
  }

  /** How many a request can still start. */
  function StartsLeft(s: State, r: nat): nat {
    if r !in s.phases then 2
    else
      match s.phases[r]
      case Fetching(again) => if again then 0 else 1
      case Answered(_) => 0
      case _ => 2
  }

  lemma StartsAreLimited(s: State, step: Step, r: nat)
    requires Enabled(s, step)
    ensures 0 <= Starts(s, step, r) && Starts(s, step, r) + StartsLeft(Apply(s, step), r) <= StartsLeft(s, r)
  {
  }

  lemma {:induction false} RunStartsAreLimited(s: State, steps: seq<Step>, end: State, r: nat)
    requires Run(s, steps, end)
    ensures 0 <= FetchesOf(s, steps, end, r) && FetchesOf(s, steps, end, r) + StartsLeft(end, r) <= StartsLeft(s, r)
    decreases |steps|
  {
    if steps != [] {
      StartsAreLimited(s, steps[0], r);
      hide Apply;
      hide Starts;
      RunStartsAreLimited(Apply(s, steps[0]), steps[1..], end, r);
    }
  }

  /** In every schedule one request costs at most two upstream requests: the second only
      when it was answered by a 304 with nothing left to serve. */
  lemma AtMostTwoFetchesEach(pass: bool, cache: map<Slot, string>, steps: seq<Step>, end: State, r: nat)
    requires Run(Quiet(pass, cache), steps, end)
    ensures 0 <= FetchesOf(Quiet(pass, cache), steps, end, r) <= 2
    ensures r in end.phases && end.phases[r] == Fetching(false) ==> FetchesOf(Quiet(pass, cache), steps, end, r) <= 1
  {
    RunStartsAreLimited(Quiet(pass, cache), steps, end, r);
    hide Run;
  }

  lemma RunSnoc(s: State, steps: seq<Step>, mid: State, step: Step)
    requires Run(s, steps, mid) && Enabled(mid, step)
    ensures Run(s, steps + [step], Apply(mid, step))
    decreases |steps|
  {
    if steps == [] {
      assert [step][1..] == [] && steps + [step] == [step];
    } else {
      assert (steps + [step])[1..] == steps[1..] + [step];
      RunSnoc(Apply(s, steps[0]), steps[1..], mid, step);
    }
  }

  /** What the cache alone can serve costs no upstream request: what is there in the
      requested format, or remembered as missing, or there in the other format, as it is
      for a client that takes it and converted for any other. */
  lemma WarmRequestFetchesNothing(pass: bool, cache: map<Slot, string>, r: nat, target: string) returns (steps: seq<Step>, end: State)
    requires NotFound in cache || Filled(cache, Primary) || Filled(cache, Other)
    requires target != ""
    ensures Run(Quiet(pass, cache), steps, end) && At(end, r, Answered(true)) && end.started == 0
    ensures end.cache == if NotFound in cache || Filled(cache, Primary) || pass then cache else cache[Primary := target]
  {
    var start := Quiet(pass, cache);
    assert Run(start, [], start);
    RunSnoc(start, [], start, Arrive(r));
    var s1 := Apply(start, Arrive(r));
    RunSnoc(start, [] + [Arrive(r)], s1, LookUpPair(r));
    var s2 := Apply(s1, LookUpPair(r));
    steps, end := [] + [Arrive(r)] + [LookUpPair(r)], s2;
    if !(NotFound in cache || Filled(cache, Primary)) {
      hide Run;
      RunSnoc(start, steps, s2, LookUpOpposite(r));
      steps, end := steps + [LookUpOpposite(r)], Apply(s2, LookUpOpposite(r));
      if !pass {
        RunSnoc(start, steps, end, Convert(r, Some(target)));
        steps, end := steps + [Convert(r, Some(target))], Apply(end, Convert(r, Some(target)));
      }
    }
    hide Run;
  }

  /** The looks of a request: one at the entries that answer it as they are, one at the other
      format, and a conversion, which is published only over the body it was made from. A
      request that is not answered goes for the lock, or under it to upstream. */
  lemma LooksExactly(s: State, step: Step)
    requires Enabled(s, step) && (step.LookUpPair? || step.LookUpOpposite? || step.Convert?)
    ensures var before, s' := s.phases[step.request], Apply(s, step);
      var missed := if before.locked then Missed else Queuing;
      match step {
        case LookUpPair(r) =>
          s'.cache == s.cache
          && s'.phases[r] == if NotFound in s.cache || (Primary in s.cache && s.cache[Primary] != "") then Answered(true)
                             else Looking(before.locked, Opposite)
        case LookUpOpposite(r) =>
          s'.cache == s.cache
          && s'.phases[r] == if !(Other in s.cache && s.cache[Other] != "") then missed
                             else if s.pass then Answered(true) else Looking(before.locked, Converting(s.cache[Other]))
        case Convert(r, target) =>
          if target.Some? && Other in s.cache && s.cache[Other] == before.look.source
          then s'.phases[r] == Answered(true) && s'.cache == s.cache[Primary := target.value]
          else s'.phases[r] == missed && s'.cache == s.cache
        case _ => false
      }
  {
  }

  /** What a reply leaves in the cache of a request that is fetching. */
  lemma ReplyIsCached(s: State, r: nat, reply: Upstream)
    requires Enabled(s, Complete(r, reply))
    ensures var before, after := s.cache, Apply(s, Complete(r, reply)).cache;
      match reply
      case Failed => after == before
      case Missing => after == before[NotFound := "1"]
      case Page(true, body, _) => after == before[Primary := body][StalePrimary := body]
      case Page(false, body, converted) =>
        after == if s.pass then before[Other := body][StaleOther := body]
                 else before[Other := body][StaleOther := body][Primary := converted][StalePrimary := converted]
      case NotModified(target) =>
        if s.phases[r].again then after == before
        else if StalePrimary in before then
          after == if Filled(before, StaleOther) then before[Primary := before[StalePrimary]][Other := before[StaleOther]]
                   else before[Primary := before[StalePrimary]]
        else if StaleOther !in before then after == before
        else if s.pass then after == before[Other := before[StaleOther]]
        else if target.None? then after == before
        else after == if before[StaleOther] != "" then before[Primary := target.value][Other := before[StaleOther]]
                      else before[Primary := target.value]
  {
  }

  lemma RunTwo(s: State, a: Step, b: Step)
    requires Enabled(s, a) && Enabled(Apply(s, a), b)
    ensures Run(s, [a, b], Apply(Apply(s, a), b))
  {
    assert [a, b][1..] == [b] && [b][1..] == [];
  }

  lemma {:induction false} RunConcat(s: State, a: seq<Step>, mid: State, b: seq<Step>, end: State)
    requires Run(s, a, mid) && Run(mid, b, end)
    ensures Run(s, a + b, end)
    decreases |a|
  {
    if a == [] {
      assert a + b == b;
    } else {
      assert (a + b)[1..] == a[1..] + b && (a + b)[0] == a[0];
      RunConcat(Apply(s, a[0]), a[1..], mid, b, end);
    }
  }

  lemma MissesTwice(s: State, r: nat, locked: bool) returns (end: State)
    requires At(s, r, Looking(locked, Pair)) && s.cache == map[]
    ensures Run(s, [LookUpPair(r), LookUpOpposite(r)], end)
    ensures At(end, r, AfterMiss(locked)) && end.cache == map[] && end.started == s.started && end.locker == s.locker
  {
    RunTwo(s, LookUpPair(r), LookUpOpposite(r));
    end := Apply(Apply(s, LookUpPair(r)), LookUpOpposite(r));
  }

  lemma EntersAlone(s: State, r: nat) returns (steps: seq<Step>, end: State)
    requires At(s, r, Queuing) && s.locker == KeyLocker.INITIAL && s.cache == map[]
    ensures Run(s, steps, end) && At(end, r, Looking(true, Pair)) && end.cache == map[] && end.started == s.started
  {
    hide MoveOf;
    RunTwo(s, Lock(KeyLocker.Enter(r, FILL)), Lock(KeyLocker.Acquire(r)));
    var s2 := Apply(Apply(s, Lock(KeyLocker.Enter(r, FILL))), Lock(KeyLocker.Acquire(r)));
    assert Enabled(s2, Locked(r)) && s2.cache == map[] && s2.started == s.started;
    steps := [Lock(KeyLocker.Enter(r, FILL)), Lock(KeyLocker.Acquire(r))];
    end := TakesIn(s, steps, s2, r);
    steps := steps + [Locked(r)];
  }

  lemma TakesIn(s: State, steps: seq<Step>, mid: State, r: nat) returns (end: State)
    requires Run(s, steps, mid) && Enabled(mid, Locked(r))
    ensures Run(s, steps + [Locked(r)], end)
    ensures At(end, r, Looking(true, Pair)) && end.cache == mid.cache && end.started == mid.started
  {
    RunSnoc(s, steps, mid, Locked(r));
    end := Apply(mid, Locked(r));
  }

  lemma FetchesPage(s: State, r: nat, body: string) returns (end: State)
    requires At(s, r, Missed) && s.cache == map[] && body != ""
    ensures Run(s, [Fetch(r), Complete(r, Page(true, body, body))], end)
    ensures At(end, r, Answered(true)) && end.started == s.started + 1 && end.cache == map[Primary := body, StalePrimary := body]
  {
    RunTwo(s, Fetch(r), Complete(r, Page(true, body, body)));
    end := Apply(Apply(s, Fetch(r)), Complete(r, Page(true, body, body)));
  }

  /** A request that finds nothing takes the lock, looks again, fetches, and is served the
      page that it stores: one upstream request. */
  lemma ColdRequestFetchesOnce(pass: bool, r: nat, body: string) returns (steps: seq<Step>, end: State)
    requires body != ""
    ensures Run(Quiet(pass, map[]), steps, end) && At(end, r, Answered(true)) && end.started == 1
    ensures end.cache == map[Primary := body, StalePrimary := body]
  {
    var start := Quiet(pass, map[]);
    assert Run(start, [], start);
    RunSnoc(start, [], start, Arrive(r));
    var s1 := Apply(start, Arrive(r));
    hide Run;
    hide Apply;
    var s2 := MissesTwice(s1, r, false);
    var enter, s3 := EntersAlone(s2, r);
    var s4 := MissesTwice(s3, r, true);
    end := FetchesPage(s4, r, body);
    var looks, fetch := [LookUpPair(r), LookUpOpposite(r)], [Fetch(r), Complete(r, Page(true, body, body))];
    steps := [] + [Arrive(r)];
    RunConcat(start, steps, s1, looks, s2);
    RunConcat(start, steps + looks, s2, enter, s3);
    RunConcat(start, steps + looks + enter, s3, looks, s4);
    RunConcat(start, steps + looks + enter + looks, s4, fetch, end);
    steps := steps + looks + enter + looks + fetch;
  }
}
