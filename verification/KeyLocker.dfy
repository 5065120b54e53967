/** Reference-counted per-key locks, over every schedule of their users. */
module KeyLocker {

  /** The two dictionaries: a lock and a count of registered users for each key. */
  datatype Registry<L> = Registry(locks: map<string, L>, waiters: map<string, nat>)

  /** Under the meta lock, on the way in: share the key's lock or bring a new one, and count. */
  function Registered<L>(r: Registry<L>, key: string, newLock: L): Registry<L> {
    Registry(if key in r.locks then r.locks else r.locks[key := newLock],
             r.waiters[key := (if key in r.waiters then r.waiters[key] else 0) + 1])
  }

  /** Under the meta lock, on the way out: count down, and forget the key with its last user. */
  function Deregistered<L>(r: Registry<L>, key: string): Registry<L> {
    var users: int := if key in r.waiters then r.waiters[key] else 1;
    var left := users - 1;
    if left <= 0 then Registry(r.locks - {key}, r.waiters - {key})
    else Registry(r.locks, r.waiters[key := left])
  }

  class Lock {
    constructor () {
    }
  }

  /** The object whose dictionaries `hold` updates in place. */
  class KeyLocker {
    var locks: map<string, Lock>
    var waiters: map<string, nat>

    constructor ()
      ensures View() == Registry(map[], map[])
    {
      locks, waiters := map[], map[];
    }

    function View(): Registry<Lock>
      reads this
    {
      Registry(locks, waiters)
    }

    method Register(key: string) returns (lock: Lock)
      modifies this
      ensures View() == Registered(old(View()), key, lock)
      ensures key in locks && locks[key] == lock
      ensures key !in old(locks) ==> fresh(lock)
    {
      if key in locks {
        lock := locks[key];
      } else {
        lock := new Lock();
        locks := locks[key := lock];
      }
      waiters := waiters[key := (if key in waiters then waiters[key] else 0) + 1];
    }

    method Deregister(key: string)
      modifies this
      ensures View() == Deregistered(old(View()), key)
    {
      var users: int := if key in waiters then waiters[key] else 1;
      var left := users - 1;
      if left <= 0 {
        waiters := waiters - {key};
        locks := locks - {key};
      } else {
        waiters := waiters[key := left];
      }
    }
  }

  // --------------------------------------------------------------- the transitions

  /** Where a task stands inside `hold`: waiting for the lock, in the body, or past
      it (released, or cancelled while waiting) and still registered. */
  datatype Phase = Queued | Holding | Leaving

  datatype Task = Task(key: string, lock: nat, phase: Phase)

  /** Locks are named by numbers. A lock's flag is set when it is in `owner`, which
      also remembers, for the proofs only, who set it. */
  datatype State = State(registry: Registry<nat>, tasks: map<nat, Task>, owner: map<nat, nat>, nextLock: nat)

  const INITIAL := State(Registry(map[], map[]), map[], map[], 0)

  /** No step awaits inside the meta lock, so registering and deregistering are one step each. */
  datatype Step =
    | Enter(task: nat, key: string)
    | Acquire(task: nat)
    | Cancel(task: nat)
    | Release(task: nat)
    | Leave(task: nat)

  predicate InPhase(s: State, task: nat, phase: Phase) {
    task in s.tasks && s.tasks[task].phase == phase
  }

  predicate Enabled(s: State, step: Step) {
    match step
    case Enter(t, _) => t !in s.tasks
    case Acquire(t) => InPhase(s, t, Queued) && s.tasks[t].lock !in s.owner
    case Cancel(t) => InPhase(s, t, Queued)
    case Release(t) => InPhase(s, t, Holding)
    case Leave(t) => InPhase(s, t, Leaving)
  }

  function Entered(s: State, t: nat, key: string): State {
    var registry := Registered(s.registry, key, s.nextLock);
    State(registry, s.tasks[t := Task(key, registry.locks[key], Queued)], s.owner, s.nextLock + 1)
  }

  function Moved(s: State, t: nat, phase: Phase, owner: map<nat, nat>): State
    requires t in s.tasks
  {
    s.(tasks := s.tasks[t := s.tasks[t].(phase := phase)], owner := owner)
  }

  function Left(s: State, t: nat): State
    requires t in s.tasks
  {
    s.(registry := Deregistered(s.registry, s.tasks[t].key), tasks := s.tasks - {t})
  }

  function Apply(s: State, step: Step): State
    requires Enabled(s, step)
  {
    match step
    case Enter(t, key) => Entered(s, t, key)
    case Acquire(t) => Moved(s, t, Holding, s.owner[s.tasks[t].lock := t])
    case Cancel(t) => Moved(s, t, Leaving, s.owner)
    case Release(t) => Moved(s, t, Leaving, s.owner - {s.tasks[t].lock})
    case Leave(t) => Left(s, t)
  }

  ghost predicate Run(s: State, steps: seq<Step>, end: State)
    decreases |steps|
  {
    if steps == [] then end == s
    else Enabled(s, steps[0]) && Run(Apply(s, steps[0]), steps[1..], end)
  }

  // --------------------------------------------------------------------- invariants

  function Users(s: State, key: string): set<nat> {
    set t | t in s.tasks && s.tasks[t].key == key
  }

  ghost predicate SharedLocks(s: State) {
    && (forall t :: t in s.tasks ==> s.tasks[t].key in s.registry.locks && s.registry.locks[s.tasks[t].key] == s.tasks[t].lock)
    && (forall k :: k in s.registry.locks ==> s.registry.locks[k] < s.nextLock)
    && (forall j, k :: j in s.registry.locks && k in s.registry.locks && s.registry.locks[j] == s.registry.locks[k] ==> j == k)
  }

  ghost predicate ExactCounts(s: State) {
    && s.registry.locks.Keys == s.registry.waiters.Keys
    && forall k :: k in s.registry.waiters ==> s.registry.waiters[k] == |Users(s, k)| > 0
  }

  ghost predicate OneHolder(s: State) {
    && (forall t :: InPhase(s, t, Holding) ==> s.tasks[t].lock in s.owner && s.owner[s.tasks[t].lock] == t)
    && (forall l :: l in s.owner ==> InPhase(s, s.owner[l], Holding) && s.tasks[s.owner[l]].lock == l)
  }

  ghost predicate Inv(s: State) {
    SharedLocks(s) && ExactCounts(s) && OneHolder(s)
  }

  lemma EnterKeepsLocks(s: State, t: nat, key: string)
    requires SharedLocks(s) && t !in s.tasks
    ensures SharedLocks(Entered(s, t, key))
  {
  }

  lemma NobodyUses(s: State, key: string)
    requires SharedLocks(s) && key !in s.registry.locks
    ensures Users(s, key) == {}
  {
  }

  lemma UsersAfterEnter(s: State, t: nat, key: string, k: string)
    requires t !in s.tasks
    ensures Users(Entered(s, t, key), k) == if k == key then Users(s, k) + {t} else Users(s, k)
    ensures t !in Users(s, k)
  {
  }

  lemma CountAfterEnter(s: State, t: nat, key: string, k: string)
    requires SharedLocks(s) && ExactCounts(s) && t !in s.tasks && (k == key || k in s.registry.waiters)
    ensures var s' := Entered(s, t, key);
      k in s'.registry.waiters && s'.registry.waiters[k] == |Users(s', k)| > 0
  {
    UsersAfterEnter(s, t, key, k);
    if k !in s.registry.waiters {
      NobodyUses(s, key);
    }
  }

  lemma EnterKeepsCounts(s: State, t: nat, key: string)
    requires SharedLocks(s) && ExactCounts(s) && t !in s.tasks
    ensures ExactCounts(Entered(s, t, key))
  {
    hide Users;
    var s' := Entered(s, t, key);
    forall k | k in s'.registry.waiters
      ensures s'.registry.waiters[k] == |Users(s', k)| > 0
    {
      CountAfterEnter(s, t, key, k);
    }
  }

  /** Holders are unaffected when the tasks that hold stay the same. */
  lemma HoldersStay(s: State, s': State)
    requires OneHolder(s) && s'.owner == s.owner
    requires forall t :: InPhase(s', t, Holding) <==> InPhase(s, t, Holding)
    requires forall t :: InPhase(s', t, Holding) ==> s'.tasks[t] == s.tasks[t]
    ensures OneHolder(s')
  {
  }

  lemma EnterKeepsHolder(s: State, t: nat, key: string)
    requires OneHolder(s) && t !in s.tasks
    ensures OneHolder(Entered(s, t, key))
  {
    hide OneHolder;
    HoldersStay(s, Entered(s, t, key));
  }

  lemma LeaveKeepsHolder(s: State, t: nat)
    requires OneHolder(s) && InPhase(s, t, Leaving)
    ensures OneHolder(Left(s, t))
  {
    hide OneHolder;
    HoldersStay(s, Left(s, t));
  }

  lemma UsersAfterLeave(s: State, t: nat, k: string)
    requires t in s.tasks
    ensures Users(Left(s, t), k) == Users(s, k) - {t}
    ensures t in Users(s, k) <==> k == s.tasks[t].key
  {
  }

  lemma LeaveKeepsCounts(s: State, t: nat)
    requires ExactCounts(s) && t in s.tasks && s.tasks[t].key in s.registry.locks
    ensures ExactCounts(Left(s, t))
  {
    UsersAfterLeave(s, t, s.tasks[t].key);
    hide Users;
    var s' := Left(s, t);
    forall k | k in s'.registry.waiters
      ensures s'.registry.waiters[k] == |Users(s', k)| > 0
    {
      UsersAfterLeave(s, t, k);
    }
  }

  lemma TaskHasLock(s: State, t: nat)
    requires SharedLocks(s) && t in s.tasks
    ensures s.tasks[t].key in s.registry.locks
  {
  }

  lemma LeaveKeepsLocks(s: State, t: nat)
    requires SharedLocks(s) && ExactCounts(s) && t in s.tasks
    ensures SharedLocks(Left(s, t))
  {
    var s', key := Left(s, t), s.tasks[t].key;
    forall u | u in s'.tasks
      ensures s'.tasks[u].key in s'.registry.locks
    {
      if s.tasks[u].key == key {
        UsersAfterLeave(s, t, key);
        assert u in Users(s', key) && |Users(s', key)| > 0;
      }
    }
  }

  lemma MoveKeepsCounts(s: State, t: nat, phase: Phase, owner: map<nat, nat>)
    requires SharedLocks(s) && ExactCounts(s) && t in s.tasks
    ensures SharedLocks(Moved(s, t, phase, owner)) && ExactCounts(Moved(s, t, phase, owner))
  {
    var s' := Moved(s, t, phase, owner);
    forall k | k in s'.registry.waiters
      ensures Users(s', k) == Users(s, k)
    {
    }
  }

  lemma MoveKeepsHolder(s: State, step: Step)
    requires OneHolder(s) && Enabled(s, step) && !step.Enter? && !step.Leave?
    ensures OneHolder(Apply(s, step))
  {
    var s' := Apply(s, step);
    assert forall u :: u != step.task ==> (InPhase(s', u, Holding) <==> InPhase(s, u, Holding));
  }

  /** Every step of every task keeps the invariant. */
  lemma InvPreserved(s: State, step: Step)
    requires Inv(s) && Enabled(s, step)
    ensures Inv(Apply(s, step))
  {
    hide SharedLocks;
    hide ExactCounts;
    hide OneHolder;
    match step {
      case Enter(t, key) =>
        EnterKeepsLocks(s, t, key);
        EnterKeepsCounts(s, t, key);
        EnterKeepsHolder(s, t, key);
      case Leave(t) =>
        TaskHasLock(s, t);
        LeaveKeepsLocks(s, t);
        LeaveKeepsCounts(s, t);
        LeaveKeepsHolder(s, t);
      case _ =>
        MoveKeepsCounts(s, step.task, Apply(s, step).tasks[step.task].phase, Apply(s, step).owner);
        MoveKeepsHolder(s, step);
    }
  }

  lemma HolderIsUnique(s: State, t: nat, u: nat)
    requires Inv(s) && InPhase(s, t, Holding) && InPhase(s, u, Holding) && s.tasks[t].key == s.tasks[u].key
    ensures t == u
  {
    hide ExactCounts;
  }

  /** What users of the locker rely on. */
  ghost predicate Safe(s: State) {
    // at most one task per key in the critical section
    && (forall t, u :: InPhase(s, t, Holding) && InPhase(s, u, Holding) && s.tasks[t].key == s.tasks[u].key ==> t == u)
    // all registered tasks of a key share one lock object
    && (forall t, u :: t in s.tasks && u in s.tasks ==> (s.tasks[t].key == s.tasks[u].key <==> s.tasks[t].lock == s.tasks[u].lock))
    // the dictionaries agree, and each count is the number of registered tasks
    && s.registry.locks.Keys == s.registry.waiters.Keys == (set t | t in s.tasks :: s.tasks[t].key)
    && (forall k :: k in s.registry.waiters ==> s.registry.waiters[k] == |Users(s, k)|)
    // nothing is left behind
    && (s.tasks == map[] ==> s.registry == Registry(map[], map[]) && s.owner == map[])
  }

  lemma InvIsSafe(s: State)
    requires Inv(s)
    ensures Safe(s)
  {
    var keys := set t | t in s.tasks :: s.tasks[t].key;
    forall k | k in s.registry.waiters
      ensures k in keys
    {
      var t :| t in Users(s, k);
    }
    assert s.registry.waiters.Keys == keys;
    if s.tasks == map[] {
      assert keys == {};
      assert s.registry.waiters.Keys == {} && s.registry.locks.Keys == {};
    }
  }

  lemma {:induction false} RunKeepsInv(s: State, steps: seq<Step>, end: State)
    requires Inv(s) && Run(s, steps, end)
    ensures Inv(end)
    decreases |steps|
  {
    if steps != [] {
      InvPreserved(s, steps[0]);
      RunKeepsInv(Apply(s, steps[0]), steps[1..], end);
    }
  }

  /** Over every schedule, with any number of tasks, keys and cancellations. */
  lemma LockerIsSafe(steps: seq<Step>, end: State)
    requires Run(INITIAL, steps, end)
    ensures Safe(end)
  {
    RunKeepsInv(INITIAL, steps, end);
    InvIsSafe(end);
  }

  /** The step that brings a task's key forward: its own next step, or its holder's release. */
  ghost predicate Progress(s: State, t: nat, step: Step)
    requires t in s.tasks
  {
    && Enabled(s, step)
    && !step.Enter? && !step.Cancel?
    && (step.task == t || (step.Release? && s.tasks[step.task].key == s.tasks[t].key))
  }

  /** No schedule strands a task: whoever is registered, somebody can move its key on. */
  lemma NoTaskIsStranded(steps: seq<Step>, end: State, t: nat) returns (step: Step)
    requires Run(INITIAL, steps, end) && t in end.tasks
    ensures Progress(end, t, step)
  {
    RunKeepsInv(INITIAL, steps, end);
    match end.tasks[t].phase {
      case Holding => step := Release(t);
      case Leaving => step := Leave(t);
      case Queued =>
        if end.tasks[t].lock in end.owner {
          step := Release(end.owner[end.tasks[t].lock]);
        } else {
          step := Acquire(t);
        }
    }
  }
}
