/** The registries of background jobs: coalescing, a bound, late callbacks and shutdown.
    The discovery and the extraction registry are two instances of this one. */
module TaskRegistry {
  import opened Wrappers
  import opened Counting

  datatype Verdict = Closed | Coalesced | Dropped | Queued

  function Bound(limit: int): nat {
    if limit < 0 then 0 else limit
  }

  /** What becomes of a request to schedule, given whether the registered job is done. */
  function Decide(closing: bool, existingDone: Option<bool>, size: nat, limit: int): Verdict {
    if closing then Closed
    else if existingDone == Some(false) then Coalesced
    else if size >= Bound(limit) then Dropped
    else Queued
  }

  /** A job leaves the registry only if it is still the one registered. */
  function Without<K, T(==)>(entries: map<K, T>, key: K, task: T): map<K, T> {
    if key in entries && entries[key] == task then entries - {key} else entries
  }

  class Task {
    var done: bool

    constructor ()
      ensures !done
    {
      done := false;
    }
  }

  class Registry<K(==)> {
    var entries: map<K, Task>

    constructor ()
      ensures entries == map[]
    {
      entries := map[];
    }

    function Existing(key: K): Option<bool>
      reads this, entries.Values
    {
      if key in entries then Some(entries[key].done) else None
    }

    method Schedule(key: K, closing: bool, limit: int) returns (verdict: Verdict, task: Task?)
      modifies this
      ensures verdict == Decide(closing, old(Existing(key)), |old(entries)|, limit)
      ensures verdict.Closed? <==> closing
      ensures verdict.Coalesced? <==> !closing && key in old(entries) && !old(entries[key].done)
      ensures verdict.Dropped? <==> !closing && !(key in old(entries) && !old(entries[key].done)) && |old(entries)| >= limit
      ensures verdict.Queued? ==> task != null && fresh(task) && !task.done && entries == old(entries)[key := task]
      ensures !verdict.Queued? ==> entries == old(entries)
    {
      task := null;
      if closing {
        return Closed, task;
      }
      if key in entries && !entries[key].done {
        return Coalesced, task;
      }
      if |entries| >= Bound(limit) {
        return Dropped, task;
      }
      var queued := new Task();
      entries := entries[key := queued];
      return Queued, queued;
    }

    method RemoveIfCurrent(key: K, done: Task)
      modifies this
      ensures entries == Without(old(entries), key, done)
      ensures forall k :: k in entries <==> k in old(entries) && !(k == key && old(entries)[k] == done)
      ensures forall k :: k in entries ==> entries[k] == old(entries)[k]
    {
      if key in entries && entries[key] == done {
        entries := entries - {key};
      }
    }

    /** One pass of the shutdown loop over a snapshot of the registry. */
    method SweepDone()
      modifies this
      ensures entries == map k | k in old(entries) && !old(entries[k].done) :: old(entries[k])
    {
      var left := entries.Keys;
      while left != {}
        invariant left <= old(entries.Keys)
        invariant entries == map k | k in old(entries) && (k in left || !old(entries[k].done)) :: old(entries[k])
        decreases |left|
      {
        var key :| key in left;
        left := left - {key};
        if entries[key].done {
          entries := entries - {key};
        }
      }
    }
  }

  // --------------------------------------------------------------- the transitions

  datatype Job<K> = Job(key: K, done: bool)

  /** Jobs are numbered; `down` is set while a shutdown is complete and not undone. */
  datatype State<K> = State(entries: map<K, nat>, jobs: map<nat, Job<K>>, limit: int, closing: bool, cancelling: bool, down: bool)

  function Initial<K>(limit: int): State<K> {
    State(map[], map[], limit, false, false, false)
  }

  /** A callback runs some time after its job is done, if ever. */
  datatype Step<K> =
    | Schedule(job: nat, key: K)
    | Finish(job: nat)
    | Callback(job: nat)
    | Shut
    | Sweep
    | ShutDown
    | Restart

  predicate Enabled<K>(s: State<K>, step: Step<K>) {
    match step
    case Schedule(job, _) => job !in s.jobs
    case Finish(job) => job in s.jobs && !s.jobs[job].done
    case Callback(job) => job in s.jobs && s.jobs[job].done
    case Shut => true
    case Sweep => s.cancelling
    case ShutDown => s.cancelling && s.entries == map[]
    case Restart => true
  }

  function Existing<K>(s: State<K>, key: K): Option<bool> {
    if key in s.entries && s.entries[key] in s.jobs then Some(s.jobs[s.entries[key]].done) else None
  }

  function Apply<K>(s: State<K>, step: Step<K>): State<K>
    requires Enabled(s, step)
  {
    match step
    case Schedule(job, key) =>
      if Decide(s.closing, Existing(s, key), |s.entries|, s.limit).Queued?
      then s.(entries := s.entries[key := job], jobs := s.jobs[job := Job(key, false)])
      else s
    case Finish(job) => s.(jobs := s.jobs[job := s.jobs[job].(done := true)])
    case Callback(job) => s.(entries := Without(s.entries, s.jobs[job].key, job))
    case Shut => s.(closing := true, cancelling := true)
    case Sweep => s.(entries := map k | k in s.entries && Existing(s, k) != Some(true) :: s.entries[k])
    case ShutDown => s.(cancelling := false, down := s.closing)
    case Restart => s.(closing := false, down := false)
  }

  ghost predicate Run<K>(s: State<K>, steps: seq<Step<K>>, end: State<K>)
    decreases |steps|
  {
    if steps == [] then end == s
    else Enabled(s, steps[0]) && Run(Apply(s, steps[0]), steps[1..], end)
  }

  // --------------------------------------------------------------------- invariants

  predicate Live<K>(s: State<K>, job: nat) {
    job in s.jobs && !s.jobs[job].done
  }

  predicate Registered<K>(s: State<K>, job: nat) {
    job in s.jobs && s.jobs[job].key in s.entries && s.entries[s.jobs[job].key] == job
  }

  ghost predicate Inv<K(!new)>(s: State<K>) {
    && |s.entries| <= Bound(s.limit)
    && (forall k :: k in s.entries ==> s.entries[k] in s.jobs && s.jobs[s.entries[k]].key == k)
    && (forall job :: Live(s, job) ==> s.jobs[job].key in s.entries && s.entries[s.jobs[job].key] == job)
    && (s.down ==> s.closing && s.entries == map[])
  }

  lemma RestrictIsNoLarger<K, T>(m: map<K, T>, n: map<K, T>)
    requires n.Keys <= m.Keys
    ensures |n| <= |m|
  {
    SubsetIsNoLarger(n.Keys, m.Keys);
  }

  lemma ScheduleKeepsInv<K(!new)>(s: State<K>, job: nat, key: K)
    requires Inv(s) && Enabled(s, Schedule(job, key))
    ensures Inv(Apply(s, Schedule(job, key)))
  {
  }

  lemma RemovalKeepsInv<K(!new)>(s: State<K>, step: Step<K>)
    requires Inv(s) && Enabled(s, step) && (step.Sweep? || step.Callback?)
    ensures Inv(Apply(s, step))
  {
    RestrictIsNoLarger(s.entries, Apply(s, step).entries);
  }

  lemma InvPreserved<K(!new)>(s: State<K>, step: Step<K>)
    requires Inv(s) && Enabled(s, step)
    ensures Inv(Apply(s, step))
  {
    match step {
      case Schedule(job, key) => ScheduleKeepsInv(s, job, key);
      case Callback(_) => RemovalKeepsInv(s, step);
      case Sweep => RemovalKeepsInv(s, step);
      case _ =>
    }
  }

  lemma {:induction false} RunKeepsInv<K(!new)>(s: State<K>, steps: seq<Step<K>>, end: State<K>)
    requires Inv(s) && Run(s, steps, end)
    ensures Inv(end) && end.limit == s.limit
    decreases |steps|
  {
    if steps != [] {
      InvPreserved(s, steps[0]);
      RunKeepsInv(Apply(s, steps[0]), steps[1..], end);
    }
  }

  /** The unfinished jobs. */
  function LiveJobs<K>(s: State<K>): set<nat> {
    set job | job in s.jobs && Live(s, job)
  }

  /** Over every run: the registry keeps its bound, so do the unfinished jobs; every
      unfinished job is the one registered under its key, so no key has two; it still is
      after the callback of any finished job, however late that comes; and after a
      shutdown nothing is unfinished and nothing can be scheduled. */
  lemma RegistryIsSound<K(!new)>(limit: int, steps: seq<Step<K>>, end: State<K>)
    requires Run(Initial(limit), steps, end)
    ensures |LiveJobs(end)| <= |end.entries| <= Bound(limit)
    ensures forall job :: Live(end, job) ==> Registered(end, job)
    ensures forall i, j :: Live(end, i) && Live(end, j) && end.jobs[i].key == end.jobs[j].key ==> i == j
    ensures forall done, job :: Enabled(end, Callback(done)) && Live(end, job) ==>
      Registered(Apply(end, Callback(done)), job) && Apply(end, Callback(done)).jobs == end.jobs
    ensures end.down ==> LiveJobs(end) == {} && forall job, key :: job !in end.jobs ==> Apply(end, Schedule(job, key)) == end
  {
    RunKeepsInv(Initial(limit), steps, end);
    forall job | job in LiveJobs(end)
      ensures job in end.entries.Values
    {
      assert Live(end, job) && end.jobs[job].key in end.entries;
    }
    ValuesAreFew(end.entries, LiveJobs(end));
  }

  /** In every run, a job is scheduled exactly when the registry is not closing, no
      unfinished job has its key, and there is room; otherwise nothing changes. */
  lemma ScheduledExactly<K(!new)>(limit: int, steps: seq<Step<K>>, s: State<K>, job: nat, key: K)
    requires Run(Initial(limit), steps, s) && job !in s.jobs
    ensures var s' := Apply(s, Schedule(job, key));
      if !s.closing && (forall i :: Live(s, i) ==> s.jobs[i].key != key) && |s.entries| < limit
      then s' == s.(entries := s.entries[key := job], jobs := s.jobs[job := Job(key, false)]) && Live(s', job) && Registered(s', job)
      else s' == s
  {
    RunKeepsInv(Initial(limit), steps, s);
    if key in s.entries {
      assert s.jobs[s.entries[key]].key == key;
      assert !s.jobs[s.entries[key]].done ==> Live(s, s.entries[key]);
    }
  }

  /** In every run, a finished job is gone after its callback, and after a pass of the
      shutdown exactly the unfinished ones are left. */
  lemma FinishedJobsLeave<K(!new)>(limit: int, steps: seq<Step<K>>, s: State<K>)
    requires Run(Initial(limit), steps, s)
    ensures forall job :: Enabled(s, Callback(job)) ==> !Registered(Apply(s, Callback(job)), job)
    ensures s.cancelling ==> forall job :: job in s.jobs ==> (Registered(Apply(s, Sweep), job) <==> Live(s, job))
  {
    RunKeepsInv(Initial(limit), steps, s);
  }
}
