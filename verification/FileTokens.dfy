/** The downloader proxy's jobs, single-use file tokens, pickups and expiry sweep.  Each critical
    section and each file-system call is one step; steps of different goroutines interleave freely. */
module FileTokens {
  import opened Options

  datatype Status = Queued | Running | Storing | Done | Failed | Invalid

  /** Storing is run's last critical section, which holds the job's mutex over the file write. */
  datatype Job = Job(status: Status, fileToken: Option<nat>, expiresAt: Option<int>, hasPath: bool)

  /** A GET /v1/files request that took a token, and how far it is. */
  datatype Phase = TookToken | FoundJob | Discarding | Opening | Serving | Closed(served: bool)

  /** `at` is when the request last read the clock. */
  datatype Pickup = Pickup(job: nat, phase: Phase, at: int)

  /** `jobs` is the heap of job objects, `listed` the ids in the server's map; the file of a job has the
      job's id. */
  datatype State = State(
    now: int, jobs: map<nat, Job>, listed: set<nat>, tokens: map<nat, nat>, issued: set<nat>,
    files: set<nat>, pickups: map<nat, Pickup>)

  datatype Step =
    | Tick(t: int)
    | Submit(j: nat, valid: bool)
    | StartRun(j: nat)
    | RunFails(j: nat)
    | StoreFile(j: nat)
    | Publish(j: nat, token: nat)
    | TakeToken(r: nat, token: nat)
    | LookUp(r: nat)
    | TakePath(r: nat)
    | Discard(r: nat, ok: bool)
    | OpenFile(r: nat, ok: bool)
    | FinishServing(r: nat, ok: bool)
    | SweepJob(j: nat, ok: bool)

  const FILE_TTL := 30 * 60
  const HOUR := 60 * 60

  const START := State(0, map[], {}, map[], {}, {}, map[])

  function SetJob(st: State, j: nat, job: Job): State {
    st.(jobs := st.jobs[j := job])
  }

  function SetPhase(st: State, r: nat, phase: Phase): State
    requires r in st.pickups
  {
    st.(pickups := st.pickups[r := st.pickups[r].(phase := phase)])
  }

  /** os.Remove, whose error every caller ignores. */
  function RemoveFile(st: State, j: nat, ok: bool): State {
    if ok then st.(files := st.files - {j}) else st
  }

  predicate Expired(st: State, job: Job) {
    job.expiresAt.Some? && st.now > job.expiresAt.value
  }

  function RunStep(st: State, j: nat, step: Step): State
    requires j in st.jobs
  {
    var job := st.jobs[j];
    match (step, job.status)
    case (StartRun(_), Queued) => SetJob(st, j, job.(status := Running))
    case (RunFails(_), Running) => SetJob(st, j, job.(status := Failed))
    case (StoreFile(_), Running) => SetJob(st, j, job.(status := Storing)).(files := st.files + {j})
    case (Publish(_, token), Storing) =>
      if token in st.issued then st
      else
        SetJob(st, j, Job(Done, Some(token), Some(st.now + FILE_TTL), true))
        .(tokens := st.tokens[token := j], issued := st.issued + {token})
    case _ => st
  }

  function PickupStep(st: State, r: nat, step: Step): State
    requires r in st.pickups
  {
    var j := st.pickups[r].job;
    match (step, st.pickups[r].phase)
    case (LookUp(_), TookToken) => SetPhase(st, r, if j in st.listed then FoundJob else Closed(false))
    case (TakePath(_), FoundJob) =>
      if j !in st.jobs || st.jobs[j].status == Storing then st
      else
        var job := st.jobs[j];
        var phase := if !job.hasPath then Closed(false) else if Expired(st, job) then Discarding else Opening;
        SetJob(st, j, job.(hasPath := false)).(pickups := st.pickups[r := Pickup(j, phase, st.now)])
    case (Discard(_, ok), Discarding) => SetPhase(RemoveFile(st, j, ok), r, Closed(false))
    case (OpenFile(_, ok), Opening) =>
      SetPhase(st, r, if ok && j in st.files then Serving else Closed(false))
    case (FinishServing(_, ok), Serving) => SetPhase(RemoveFile(st, j, ok), r, Closed(true))
    case _ => st
  }

  /** The sweep acts on a job once its expiry lies the file's lifetime back. */
  predicate Stale(st: State, job: Job) {
    job.expiresAt.Some? && st.now > job.expiresAt.value + FILE_TTL
  }

  /** The sweep of one listed job, under both mutexes. */
  function Swept(st: State, j: nat, ok: bool): State
    requires j in st.jobs
  {
    var job := st.jobs[j];
    if !Stale(st, job) then st
    else
      var st := if job.hasPath then SetJob(RemoveFile(st, j, ok), j, job.(hasPath := false)) else st;
      if st.now - job.expiresAt.value > HOUR then st.(listed := st.listed - {j}) else st
  }

  function Do(st: State, step: Step): State {
    match step
    case Tick(t) => if t > st.now then st.(now := t) else st
    case Submit(j, valid) =>
      if j in st.jobs then st
      else SetJob(st, j, Job(if valid then Queued else Invalid, None, None, false)).(listed := st.listed + {j})
    case StartRun(j) => if j in st.jobs then RunStep(st, j, step) else st
    case RunFails(j) => if j in st.jobs then RunStep(st, j, step) else st
    case StoreFile(j) => if j in st.jobs then RunStep(st, j, step) else st
    case Publish(j, _) => if j in st.jobs then RunStep(st, j, step) else st
    case TakeToken(r, token) =>
      if r in st.pickups || token !in st.tokens then st
      else st.(pickups := st.pickups[r := Pickup(st.tokens[token], TookToken, st.now)], tokens := st.tokens - {token})
    case LookUp(r) => if r in st.pickups then PickupStep(st, r, step) else st
    case TakePath(r) => if r in st.pickups then PickupStep(st, r, step) else st
    case Discard(r, _) => if r in st.pickups then PickupStep(st, r, step) else st
    case OpenFile(r, _) => if r in st.pickups then PickupStep(st, r, step) else st
    case FinishServing(r, _) => if r in st.pickups then PickupStep(st, r, step) else st
    case SweepJob(j, ok) =>
      if j in st.jobs && j in st.listed && st.jobs[j].status != Storing then Swept(st, j, ok) else st
  }

  function Run(steps: seq<Step>): State {
    if steps == [] then START else Do(Run(steps[..|steps| - 1]), steps[|steps| - 1])
  }

  /** The token GET /v1/jobs/{id} shows, for a listed job. */
  function ShownToken(st: State, j: nat): Option<nat>
    requires j in st.jobs
  {
    var job := st.jobs[j];
    if job.status == Done && (job.fileToken.None? || Expired(st, job)) then None else job.fileToken
  }

  // ---------------------------------------------------------------- the invariant

  /** The pickup holds the file's path. */
  predicate Holds(p: Pickup) {
    p.phase == Discarding || p.phase == Opening || p.phase == Serving
  }

  ghost predicate JobOk(st: State, j: nat, job: Job) {
    && (job.status == Done <==> job.fileToken.Some?)
    && (job.status == Done <==> job.expiresAt.Some?)
    && (job.hasPath ==> job.status == Done && j in st.files && j in st.listed)
    && (job.status == Storing ==> j in st.files)
    && (job.status != Done ==> j in st.listed)
    && (job.fileToken.Some? ==> job.fileToken.value in st.issued)
  }

  ghost predicate TokenOk(st: State, token: nat, j: nat) {
    && token in st.issued
    && j in st.jobs && st.jobs[j].fileToken == Some(token)
    && forall r :: r in st.pickups ==> st.pickups[r].job != j
  }

  ghost predicate PickupOk(st: State, r: nat, p: Pickup) {
    && p.job in st.jobs && st.jobs[p.job].status == Done
    && (Holds(p) ==> p.job in st.files)
    && (Holds(p) || p.phase == Closed(true) ==> !st.jobs[p.job].hasPath)
    && (p.phase == Opening || p.phase == Serving || p.phase == Closed(true) ==>
          st.jobs[p.job].expiresAt.Some? && p.at <= st.jobs[p.job].expiresAt.value)
    && forall q :: q in st.pickups && st.pickups[q].job == p.job ==> q == r
  }

  ghost predicate Inv(st: State) {
    && (forall j :: j in st.jobs ==> JobOk(st, j, st.jobs[j]))
    && (forall token :: token in st.tokens ==> TokenOk(st, token, st.tokens[token]))
    && (forall r :: r in st.pickups ==> PickupOk(st, r, st.pickups[r]))
    && (forall j :: j in st.files ==> j in st.jobs && (st.jobs[j].status == Storing || st.jobs[j].status == Done))
    && st.listed <= st.jobs.Keys
  }

  lemma RunStepKeepsPickup(st: State, j: nat, step: Step, r: nat)
    requires Inv(st) && j in st.jobs && r in st.pickups
    ensures PickupOk(RunStep(st, j, step), r, st.pickups[r])
  {
    assert PickupOk(st, r, st.pickups[r]);
  }

  lemma RunStepKeepsToken(st: State, j: nat, step: Step, token: nat)
    requires Inv(st) && j in st.jobs && token in RunStep(st, j, step).tokens
    ensures TokenOk(RunStep(st, j, step), token, RunStep(st, j, step).tokens[token])
  {
    assert JobOk(st, j, st.jobs[j]);
    if token in st.tokens {
      assert TokenOk(st, token, st.tokens[token]);
    } else {
      forall r | r in st.pickups ensures st.pickups[r].job != j {
        assert PickupOk(st, r, st.pickups[r]);
      }
    }
  }

  lemma RunStepKeepsInv(st: State, j: nat, step: Step)
    requires Inv(st) && j in st.jobs
    ensures Inv(RunStep(st, j, step))
  {
    var st' := RunStep(st, j, step);
    assert JobOk(st, j, st.jobs[j]);
    forall r | r in st'.pickups ensures PickupOk(st', r, st'.pickups[r]) {
      RunStepKeepsPickup(st, j, step, r);
    }
    forall t | t in st'.tokens ensures TokenOk(st', t, st'.tokens[t]) {
      RunStepKeepsToken(st, j, step, t);
    }
  }

  lemma SubmitKeepsInv(st: State, j: nat, valid: bool)
    requires Inv(st) && j !in st.jobs
    ensures Inv(Do(st, Submit(j, valid)))
  {
    var st' := Do(st, Submit(j, valid));
    forall r | r in st'.pickups ensures PickupOk(st', r, st'.pickups[r]) {
      assert PickupOk(st, r, st.pickups[r]);
    }
    forall t | t in st'.tokens ensures TokenOk(st', t, st'.tokens[t]) {
      assert TokenOk(st, t, st.tokens[t]);
    }
  }

  lemma TakeTokenKeepsInv(st: State, r: nat, token: nat)
    requires Inv(st) && r !in st.pickups && token in st.tokens
    ensures Inv(Do(st, TakeToken(r, token)))
  {
    var st' := Do(st, TakeToken(r, token));
    assert TokenOk(st, token, st.tokens[token]);
    assert JobOk(st, st.tokens[token], st.jobs[st.tokens[token]]);
    forall q | q in st'.pickups ensures PickupOk(st', q, st'.pickups[q]) {
      assert q in st.pickups ==> PickupOk(st, q, st.pickups[q]);
    }
    forall t | t in st'.tokens ensures TokenOk(st', t, st'.tokens[t]) {
      assert TokenOk(st, t, st.tokens[t]);
    }
  }

  /** What one step of a pickup changes: its own phase and clock reading, its job's path, its job's file. */
  lemma PickupStepIsLocal(st: State, r: nat, step: Step)
    requires r in st.pickups
    ensures var st', j := PickupStep(st, r, step), st.pickups[r].job;
      && r in st'.pickups && st'.pickups[r].job == j && st'.pickups == st.pickups[r := st'.pickups[r]]
      && st' == st.(jobs := st'.jobs, files := st'.files, pickups := st'.pickups)
      && (st'.jobs == st.jobs || (j in st.jobs && st'.jobs == st.jobs[j := st.jobs[j].(hasPath := false)]))
      && (st'.files == st.files || st'.files == st.files - {j})
  {
  }

  lemma PickupStepKeepsOther(st: State, r: nat, step: Step, q: nat)
    requires Inv(st) && r in st.pickups && q in st.pickups && q != r
    ensures PickupOk(PickupStep(st, r, step), q, st.pickups[q])
  {
    PickupStepIsLocal(st, r, step);
    assert PickupOk(st, q, st.pickups[q]);
  }

  lemma PickupStepKeepsItself(st: State, r: nat, step: Step)
    requires Inv(st) && r in st.pickups
    ensures r in PickupStep(st, r, step).pickups
    ensures PickupOk(PickupStep(st, r, step), r, PickupStep(st, r, step).pickups[r])
  {
    assert PickupOk(st, r, st.pickups[r]);
    assert JobOk(st, st.pickups[r].job, st.jobs[st.pickups[r].job]);
  }

  lemma PickupStepKeepsToken(st: State, r: nat, step: Step, token: nat)
    requires Inv(st) && r in st.pickups && token in st.tokens
    ensures TokenOk(PickupStep(st, r, step), token, st.tokens[token])
  {
    PickupStepIsLocal(st, r, step);
    assert TokenOk(st, token, st.tokens[token]);
  }

  lemma PickupStepKeepsJob(st: State, r: nat, step: Step, j: nat)
    requires Inv(st) && r in st.pickups && j in st.jobs
    ensures j in PickupStep(st, r, step).jobs && JobOk(PickupStep(st, r, step), j, PickupStep(st, r, step).jobs[j])
  {
    assert JobOk(st, j, st.jobs[j]) && PickupOk(st, r, st.pickups[r]);
  }

  lemma PickupStepKeepsInv(st: State, r: nat, step: Step)
    requires Inv(st) && r in st.pickups
    ensures Inv(PickupStep(st, r, step))
  {
    var st' := PickupStep(st, r, step);
    PickupStepIsLocal(st, r, step);
    PickupStepKeepsItself(st, r, step);
    forall q | q in st'.pickups ensures PickupOk(st', q, st'.pickups[q]) {
      if q != r { PickupStepKeepsOther(st, r, step, q); }
    }
    forall t | t in st'.tokens ensures TokenOk(st', t, st'.tokens[t]) {
      PickupStepKeepsToken(st, r, step, t);
    }
    forall j | j in st'.jobs ensures JobOk(st', j, st'.jobs[j]) {
      PickupStepKeepsJob(st, r, step, j);
    }
  }

  lemma SweepKeepsPickup(st: State, j: nat, ok: bool, q: nat)
    requires Inv(st) && j in st.jobs && j in st.listed && st.jobs[j].status != Storing && q in st.pickups
    ensures PickupOk(Swept(st, j, ok), q, st.pickups[q])
  {
    assert PickupOk(st, q, st.pickups[q]);
  }

  lemma SweepKeepsToken(st: State, j: nat, ok: bool, token: nat)
    requires Inv(st) && j in st.jobs && token in st.tokens
    ensures TokenOk(Swept(st, j, ok), token, st.tokens[token])
  {
    assert TokenOk(st, token, st.tokens[token]);
  }

  lemma SweepKeepsInv(st: State, j: nat, ok: bool)
    requires Inv(st) && j in st.jobs && j in st.listed && st.jobs[j].status != Storing
    ensures Inv(Swept(st, j, ok))
  {
    var st' := Swept(st, j, ok);
    assert JobOk(st, j, st.jobs[j]);
    assert st'.pickups == st.pickups && st'.tokens == st.tokens;
    forall q | q in st'.pickups ensures PickupOk(st', q, st'.pickups[q]) {
      SweepKeepsPickup(st, j, ok, q);
    }
    forall t | t in st'.tokens ensures TokenOk(st', t, st'.tokens[t]) {
      SweepKeepsToken(st, j, ok, t);
    }
  }

  lemma TickKeepsInv(st: State, t: int)
    requires Inv(st)
    ensures Inv(st.(now := t))
  {
    var st' := st.(now := t);
    forall q | q in st'.pickups ensures PickupOk(st', q, st'.pickups[q]) {
      assert PickupOk(st, q, st.pickups[q]);
    }
    forall k | k in st'.tokens ensures TokenOk(st', k, st'.tokens[k]) {
      assert TokenOk(st, k, st.tokens[k]);
    }
    forall j | j in st'.jobs ensures JobOk(st', j, st'.jobs[j]) {
      assert JobOk(st, j, st.jobs[j]);
    }
  }

  lemma StepKeepsInv(st: State, step: Step)
    requires Inv(st)
    ensures Inv(Do(st, step))
  {
    match step
    case Tick(t) => TickKeepsInv(st, t);
    case Submit(j, valid) => if j !in st.jobs { SubmitKeepsInv(st, j, valid); }
    case StartRun(j) => if j in st.jobs { RunStepKeepsInv(st, j, step); }
    case RunFails(j) => if j in st.jobs { RunStepKeepsInv(st, j, step); }
    case StoreFile(j) => if j in st.jobs { RunStepKeepsInv(st, j, step); }
    case Publish(j, _) => if j in st.jobs { RunStepKeepsInv(st, j, step); }
    case TakeToken(r, token) => if r !in st.pickups && token in st.tokens { TakeTokenKeepsInv(st, r, token); }
    case LookUp(r) => if r in st.pickups { PickupStepKeepsInv(st, r, step); }
    case TakePath(r) => if r in st.pickups { PickupStepKeepsInv(st, r, step); }
    case Discard(r, _) => if r in st.pickups { PickupStepKeepsInv(st, r, step); }
    case OpenFile(r, _) => if r in st.pickups { PickupStepKeepsInv(st, r, step); }
    case FinishServing(r, _) => if r in st.pickups { PickupStepKeepsInv(st, r, step); }
    case SweepJob(j, ok) =>
      if j in st.jobs && j in st.listed && st.jobs[j].status != Storing { SweepKeepsInv(st, j, ok); }
  }

  lemma {:induction false} RunKeepsInv(steps: seq<Step>)
    ensures Inv(Run(steps))
  {
    if steps != [] {
      RunKeepsInv(steps[..|steps| - 1]);
      StepKeepsInv(Run(steps[..|steps| - 1]), steps[|steps| - 1]);
    }
  }

  // ---------------------------------------------------------------- the theorems

  predicate Serves(st: State, r: nat, j: nat) {
    r in st.pickups && st.pickups[r].job == j && (st.pickups[r].phase == Serving || st.pickups[r].phase == Closed(true))
  }

  /** A job's file is served to at most one request, ever. */
  lemma ServedOnce(steps: seq<Step>, q: nat, r: nat, j: nat)
    requires Serves(Run(steps), q, j) && Serves(Run(steps), r, j)
    ensures q == r
  {
    RunKeepsInv(steps);
    assert PickupOk(Run(steps), q, Run(steps).pickups[q]);
  }

  /** A file that is served was picked up before its token expired. */
  lemma ServedBeforeExpiry(steps: seq<Step>, r: nat, j: nat)
    requires Serves(Run(steps), r, j)
    ensures var st := Run(steps);
      j in st.jobs && st.jobs[j].expiresAt.Some? && st.pickups[r].at <= st.jobs[j].expiresAt.value
  {
    RunKeepsInv(steps);
    assert PickupOk(Run(steps), r, Run(steps).pickups[r]);
  }

  /** A path handed out always names an existing file: an open can only fail for a fault of the file system. */
  lemma PathsNeverDangle(steps: seq<Step>, j: nat, r: nat)
    ensures var st := Run(steps);
      && (j in st.jobs && st.jobs[j].hasPath ==> j in st.files)
      && (r in st.pickups && Holds(st.pickups[r]) ==> st.pickups[r].job in st.files)
  {
    RunKeepsInv(steps);
    var st := Run(steps);
    assert j in st.jobs ==> JobOk(st, j, st.jobs[j]);
    assert r in st.pickups ==> PickupOk(st, r, st.pickups[r]);
  }

  /** The job view hides a token exactly when it has expired; consuming it changes nothing there. */
  lemma ShownUntilExpiry(steps: seq<Step>, j: nat)
    requires j in Run(steps).jobs
    ensures var st := Run(steps);
      ShownToken(st, j).Some? <==> st.jobs[j].status == Done && !Expired(st, st.jobs[j])
  {
    RunKeepsInv(steps);
    assert JobOk(Run(steps), j, Run(steps).jobs[j]);
  }

  lemma ConsumedTokenIsStillShown(steps: seq<Step>, r: nat, token: nat)
    requires var st := Run(steps); r !in st.pickups && token in st.tokens
    ensures var st, st' := Run(steps), Do(Run(steps), TakeToken(r, token));
      && token !in st'.tokens
      && st.tokens[token] in st.jobs && st'.jobs == st.jobs
      && ShownToken(st', st.tokens[token]) == ShownToken(st, st.tokens[token])
      && st.jobs[st.tokens[token]].fileToken == Some(token)
  {
    RunKeepsInv(steps);
    assert TokenOk(Run(steps), token, Run(steps).tokens[token]);
  }

  // ---------------------------------------------------------------- who is responsible for a file

  predicate HeldByPickup(st: State, j: nat) {
    exists r :: r in st.pickups && st.pickups[r].job == j && Holds(st.pickups[r])
  }

  /** The file is being stored, is the path of a listed job, or is in a pickup's hands. */
  predicate Owned(st: State, j: nat) {
    || (j in st.jobs && j in st.listed && (st.jobs[j].status == Storing || st.jobs[j].hasPath))
    || HeldByPickup(st, j)
  }

  /** The step opens or removes the file of job j, and that call fails. */
  predicate FailsOn(st: State, step: Step, j: nat) {
    match step
    case Discard(r, ok) => !ok && r in st.pickups && st.pickups[r].phase == Discarding && st.pickups[r].job == j
    case OpenFile(r, ok) => !ok && r in st.pickups && st.pickups[r].phase == Opening && st.pickups[r].job == j
    case FinishServing(r, ok) => !ok && r in st.pickups && st.pickups[r].phase == Serving && st.pickups[r].job == j
    case SweepJob(x, ok) =>
      !ok && x == j && j in st.jobs && j in st.listed && st.jobs[j].status != Storing && st.jobs[j].hasPath
        && Stale(st, st.jobs[j])
    case _ => false
  }

  /** Some open or remove of the file of job j failed in the run. */
  ghost predicate Faulted(steps: seq<Step>, j: nat) {
    exists i :: 0 <= i < |steps| && FailsOn(Run(steps[..i]), steps[i], j)
  }

  /** A failed call leaves the file behind. */
  lemma FaultOrphans(st: State, step: Step, j: nat)
    requires Inv(st) && FailsOn(st, step, j)
    ensures j in Do(st, step).files && !Owned(Do(st, step), j)
  {
    if step.SweepJob? {
      SweepFaultOrphans(st, j);
    } else {
      PickupFaultOrphans(st, step, j);
    }
  }

  lemma SweepFaultOrphans(st: State, j: nat)
    requires Inv(st) && FailsOn(st, SweepJob(j, false), j)
    ensures j in Swept(st, j, false).files && !Owned(Swept(st, j, false), j)
  {
    assert JobOk(st, j, st.jobs[j]);
    forall q | q in st.pickups && st.pickups[q].job == j ensures !Holds(st.pickups[q]) {
      assert PickupOk(st, q, st.pickups[q]);
    }
  }

  lemma PickupFaultOrphans(st: State, step: Step, j: nat)
    requires Inv(st) && FailsOn(st, step, j) && !step.SweepJob?
    ensures j in PickupStep(st, step.r, step).files && !Owned(PickupStep(st, step.r, step), j)
  {
    var st' := PickupStep(st, step.r, step);
    assert PickupOk(st, step.r, st.pickups[step.r]);
    PickupStepIsLocal(st, step.r, step);
    assert !Holds(st'.pickups[step.r]) && st'.jobs == st.jobs;
  }

  lemma PickupStepKeepsOwner(st: State, r: nat, step: Step, j: nat)
    requires Inv(st) && r in st.pickups && j in st.files && j in PickupStep(st, r, step).files && !FailsOn(st, step, j)
    requires step.LookUp? || step.TakePath? || step.Discard? || step.OpenFile? || step.FinishServing?
    requires step.r == r
    ensures Owned(PickupStep(st, r, step), j) <==> Owned(st, j)
  {
    PickupStepIsLocal(st, r, step);
    assert JobOk(st, j, st.jobs[j]);
    if st.pickups[r].job != j {
      AnotherJobsPickup(st, PickupStep(st, r, step), r, j);
    } else {
      OwnFileAfter(st, r, step);
    }
  }

  lemma AnotherJobsPickup(st: State, st': State, r: nat, j: nat)
    requires r in st.pickups && st.pickups[r].job != j
    requires r in st'.pickups && st'.pickups[r].job == st.pickups[r].job
    requires st'.pickups == st.pickups[r := st'.pickups[r]]
    requires st'.listed == st.listed && (j in st'.jobs <==> j in st.jobs)
        && (j in st.jobs ==> st'.jobs[j] == st.jobs[j])
    ensures Owned(st', j) <==> Owned(st, j)
  {
    if q :| q in st.pickups && st.pickups[q].job == j && Holds(st.pickups[q]) {
      assert st'.pickups[q] == st.pickups[q];
    }
    if q :| q in st'.pickups && st'.pickups[q].job == j && Holds(st'.pickups[q]) {
      assert st'.pickups[q] == st.pickups[q];
    }
  }

  /** Its own job's file: the pickup takes it from the job, or holds it before and after, or neither. */
  lemma OwnFileAfter(st: State, r: nat, step: Step)
    requires Inv(st) && r in st.pickups && var j := st.pickups[r].job; j in st.files && !FailsOn(st, step, j)
    requires step.LookUp? || step.TakePath? || step.Discard? || step.OpenFile? || step.FinishServing?
    requires step.r == r && st.pickups[r].job in PickupStep(st, r, step).files
    ensures var j := st.pickups[r].job; Owned(PickupStep(st, r, step), j) <==> Owned(st, j)
  {
    var j, st' := st.pickups[r].job, PickupStep(st, r, step);
    PickupStepIsLocal(st, r, step);
    assert PickupOk(st, r, st.pickups[r]) && JobOk(st, j, st.jobs[j]);
    OnlyHolder(st, r);
    PickupStepKeepsInv(st, r, step);
    OnlyHolder(st', r);
  }

  /** A job has one pickup at most: its file is in a pickup's hands when it is in that one's. */
  lemma OnlyHolder(st: State, r: nat)
    requires Inv(st) && r in st.pickups
    ensures HeldByPickup(st, st.pickups[r].job) <==> Holds(st.pickups[r])
  {
    assert PickupOk(st, r, st.pickups[r]);
  }

  lemma SamePickupsSameHolder(st: State, st': State, j: nat)
    requires st.pickups == st'.pickups
    ensures HeldByPickup(st, j) <==> HeldByPickup(st', j)
  {
  }

  lemma TakeTokenKeepsOwner(st: State, r: nat, token: nat, j: nat)
    requires r !in st.pickups && token in st.tokens
    ensures Owned(Do(st, TakeToken(r, token)), j) <==> Owned(st, j)
  {
    var st' := Do(st, TakeToken(r, token));
    if q :| q in st.pickups && st.pickups[q].job == j && Holds(st.pickups[q]) {
      assert st'.pickups[q] == st.pickups[q];
    }
  }

  lemma JobStepKeepsOwner(st: State, step: Step, j: nat)
    requires Inv(st) && j in st.files && j in Do(st, step).files && !FailsOn(st, step, j)
    requires st.pickups == Do(st, step).pickups
    ensures Owned(Do(st, step), j) <==> Owned(st, j)
  {
    assert JobOk(st, j, st.jobs[j]);
    SamePickupsSameHolder(st, Do(st, step), j);
    if step.SweepJob? {
      SweepKeepsOwner(st, step, j);
    } else if step.StartRun? || step.RunFails? || step.StoreFile? || step.Publish? {
      if step.j in st.jobs {
        RunStepKeepsOwner(st, step.j, step, j);
      }
    }
  }

  lemma RunStepKeepsOwner(st: State, x: nat, step: Step, j: nat)
    requires x in st.jobs && j in st.files && j in st.jobs && JobOk(st, j, st.jobs[j])
    requires st.jobs[j].status == Storing || st.jobs[j].status == Done
    ensures Owned(RunStep(st, x, step), j) <==> Owned(st, j)
  {
    SamePickupsSameHolder(st, RunStep(st, x, step), j);
  }

  lemma SweepKeepsOwner(st: State, step: Step, j: nat)
    requires step.SweepJob? && j in st.files && j in st.jobs && JobOk(st, j, st.jobs[j])
    requires j in Do(st, step).files && !FailsOn(st, step, j)
    ensures Owned(Do(st, step), j) <==> Owned(st, j)
  {
    SamePickupsSameHolder(st, Do(st, step), j);
  }

  /** Every other step leaves a file as owned or as orphaned as it was. */
  lemma OwnershipStays(st: State, step: Step, j: nat)
    requires Inv(st) && j in st.files && j in Do(st, step).files && !FailsOn(st, step, j)
    ensures Owned(Do(st, step), j) <==> Owned(st, j)
  {
    if step.TakeToken? {
      if step.r !in st.pickups && step.token in st.tokens {
        TakeTokenKeepsOwner(st, step.r, step.token, j);
      }
    } else if step.LookUp? || step.TakePath? || step.Discard? || step.OpenFile? || step.FinishServing? {
      DoesPickupStep(st, step);
      if step.r in st.pickups {
        PickupStepKeepsOwner(st, step.r, step, j);
      }
    } else {
      OthersKeepPickups(st, step);
      JobStepKeepsOwner(st, step, j);
    }
  }

  lemma DoesPickupStep(st: State, step: Step)
    requires step.LookUp? || step.TakePath? || step.Discard? || step.OpenFile? || step.FinishServing?
    ensures Do(st, step) == if step.r in st.pickups then PickupStep(st, step.r, step) else st
  {
  }

  lemma OthersKeepPickups(st: State, step: Step)
    requires !(step.LookUp? || step.TakePath? || step.Discard? || step.OpenFile? || step.FinishServing?
        || step.TakeToken?)
    ensures Do(st, step).pickups == st.pickups
  {
  }

  lemma NewFileIsOwned(st: State, step: Step, j: nat)
    requires Inv(st) && j !in st.files && j in Do(st, step).files
    ensures Owned(Do(st, step), j)
  {
    assert j in st.jobs && JobOk(st, j, st.jobs[j]);
  }

  /** A failed call on j needs j's file, and an orphaned file stays. */
  lemma OrphanStays(st: State, step: Step, j: nat)
    requires Inv(st) && j in st.files && !Owned(st, j)
    ensures j in Do(st, step).files
  {
    assert JobOk(st, j, st.jobs[j]);
  }

  lemma FaultedSoFar(steps: seq<Step>, j: nat)
    requires steps != []
    ensures Faulted(steps, j) <==>
            Faulted(steps[..|steps| - 1], j) || FailsOn(Run(steps[..|steps| - 1]), steps[|steps| - 1], j)
  {
    var n := |steps| - 1;
    var before := steps[..n];
    forall i | 0 <= i < n ensures before[..i] == steps[..i] && before[i] == steps[i] {}
    if Faulted(before, j) {
      var i :| 0 <= i < n && FailsOn(Run(before[..i]), before[i], j);
      assert FailsOn(Run(steps[..i]), steps[i], j);
    }
    if i :| 0 <= i < n && FailsOn(Run(steps[..i]), steps[i], j) {
      assert FailsOn(Run(before[..i]), before[i], j);
    }
  }

  /** After any run a file is orphaned exactly when an open or remove of it failed. */
  lemma {:induction false} OrphanedExactlyByFaults(steps: seq<Step>, j: nat)
    ensures Faulted(steps, j) <==> j in Run(steps).files && !Owned(Run(steps), j)
  {
    if steps != [] {
      var before, step := steps[..|steps| - 1], steps[|steps| - 1];
      var st := Run(before);
      OrphanedExactlyByFaults(before, j);
      FaultedSoFar(steps, j);
      RunKeepsInv(before);
      if FailsOn(st, step, j) {
        FaultOrphans(st, step, j);
      } else if j in st.files {
        if !Owned(st, j) {
          OrphanStays(st, step, j);
        }
        if j in Do(st, step).files {
          OwnershipStays(st, step, j);
        }
      } else if j in Do(st, step).files {
        NewFileIsOwned(st, step, j);
      }
    }
  }

  /** Every stored file is being stored, is the path of a listed job or is in a pickup's hands, exactly when
      no open or remove of the run failed. */
  lemma EveryFileIsAccountedFor(steps: seq<Step>)
    ensures (forall j :: j in Run(steps).files ==> Owned(Run(steps), j)) <==> forall j: nat :: !Faulted(steps, j)
  {
    if forall j :: j in Run(steps).files ==> Owned(Run(steps), j) {
      forall j: nat ensures !Faulted(steps, j) {
        OrphanedExactlyByFaults(steps, j);
      }
    }
    if forall j: nat :: !Faulted(steps, j) {
      forall j | j in Run(steps).files ensures Owned(Run(steps), j) {
        OrphanedExactlyByFaults(steps, j);
      }
    }
  }

  /** When the sweep has forgotten a job, its file is gone, in a pickup's hands, or one of its calls failed. */
  lemma ForgettingOrphansNothing(steps: seq<Step>, j: nat)
    requires j in Run(steps).jobs && j !in Run(steps).listed && j in Run(steps).files
    ensures HeldByPickup(Run(steps), j) <==> !Faulted(steps, j)
  {
    OrphanedExactlyByFaults(steps, j);
  }

  /** After its first retrieval a file is gone, exactly unless an open or remove of it failed. */
  lemma RetrievedFileIsGone(steps: seq<Step>, r: nat, j: nat)
    requires Serves(Run(steps), r, j) && Run(steps).pickups[r].phase == Closed(true)
    ensures j in Run(steps).files <==> Faulted(steps, j)
  {
    OrphanedExactlyByFaults(steps, j);
    RunKeepsInv(steps);
    var st := Run(steps);
    assert PickupOk(st, r, st.pickups[r]);
    forall q | q in st.pickups && st.pickups[q].job == j ensures !Holds(st.pickups[q]) {
      assert q == r;
    }
  }

  // ---------------------------------------------------------------- the ordinary course

  function Published(st: State, j: nat, token: nat): State {
    Do(Do(Do(Do(st, Submit(j, true)), StartRun(j)), StoreFile(j)), Publish(j, token))
  }

  function PickedUp(st: State, r: nat, token: nat): State {
    Do(Do(Do(Do(Do(st, TakeToken(r, token)), LookUp(r)), TakePath(r)), OpenFile(r, true)), FinishServing(r, true))
  }

  lemma JobIsPublished(st: State, j: nat, token: nat)
    requires j !in st.jobs && token !in st.issued
    ensures var st' := Published(st, j, token);
      && st' == st.(jobs := st.jobs[j := Job(Done, Some(token), Some(st.now + FILE_TTL), true)],
                    listed := st.listed + {j}, files := st.files + {j},
                    tokens := st.tokens[token := j], issued := st.issued + {token})
  {
    var s1 := Do(st, Submit(j, true));
    var s2 := Do(s1, StartRun(j));
    assert s2.jobs == st.jobs[j := Job(Running, None, None, false)];
    var s3 := Do(s2, StoreFile(j));
    assert s3.jobs == st.jobs[j := Job(Storing, None, None, false)];
  }

  lemma TokenIsServed(st: State, j: nat, token: nat, r: nat)
    requires token in st.tokens && st.tokens[token] == j && j in st.listed && j in st.files && r !in st.pickups
    requires j in st.jobs && st.jobs[j].status == Done && st.jobs[j].hasPath && !Expired(st, st.jobs[j])
    ensures var st' := PickedUp(st, r, token);
      Serves(st', r, j) && st'.files == st.files - {j} && token !in st'.tokens && !st'.jobs[j].hasPath
  {
    PathIsTaken(st, j, token, r);
    PathIsServed(Do(Do(Do(st, TakeToken(r, token)), LookUp(r)), TakePath(r)), j, r);
  }

  lemma PathIsServed(st: State, j: nat, r: nat)
    requires r in st.pickups && st.pickups[r].phase == Opening && st.pickups[r].job == j && j in st.files
    requires j in st.jobs
    ensures var st' := Do(Do(st, OpenFile(r, true)), FinishServing(r, true));
      && st' == st.(files := st.files - {j}, pickups := st'.pickups)
      && r in st'.pickups && st'.pickups[r] == Pickup(j, Closed(true), st.pickups[r].at)
  {
  }

  /** Submitted, run, stored and picked up with its token before expiry: the file is served and removed. */
  lemma OrdinaryPickup(st: State, j: nat, token: nat, r: nat)
    requires j !in st.jobs && token !in st.issued && r !in st.pickups
    ensures var st' := PickedUp(Published(st, j, token), r, token);
      Serves(st', r, j) && j !in st'.files && token !in st'.tokens
  {
    JobIsPublished(st, j, token);
    TokenIsServed(Published(st, j, token), j, token, r);
  }

  lemma RunOneMore(steps: seq<Step>, step: Step)
    ensures Run(steps + [step]) == Do(Run(steps), step)
  {
    assert (steps + [step])[..|steps|] == steps;
  }

  function Publishing(steps: seq<Step>, j: nat, token: nat): seq<Step> {
    steps + [Submit(j, true)] + [StartRun(j)] + [StoreFile(j)] + [Publish(j, token)]
  }

  function FailingPickup(steps: seq<Step>, r: nat, token: nat): seq<Step> {
    steps + [TakeToken(r, token)] + [LookUp(r)] + [TakePath(r)] + [OpenFile(r, false)]
  }

  lemma PublishingRun(steps: seq<Step>, j: nat, token: nat)
    ensures Run(Publishing(steps, j, token)) == Published(Run(steps), j, token)
  {
    RunOneMore(steps, Submit(j, true));
    RunOneMore(steps + [Submit(j, true)], StartRun(j));
    RunOneMore(steps + [Submit(j, true)] + [StartRun(j)], StoreFile(j));
    RunOneMore(steps + [Submit(j, true)] + [StartRun(j)] + [StoreFile(j)], Publish(j, token));
  }

  lemma PathIsTaken(st: State, j: nat, token: nat, r: nat)
    requires token in st.tokens && st.tokens[token] == j && j in st.listed && j in st.files && r !in st.pickups
    requires j in st.jobs && st.jobs[j].status == Done && st.jobs[j].hasPath && !Expired(st, st.jobs[j])
    ensures var st' := Do(Do(Do(st, TakeToken(r, token)), LookUp(r)), TakePath(r));
      && r in st'.pickups && st'.pickups[r].phase == Opening && st'.pickups[r].job == j
      && st'.files == st.files && j in st'.jobs && !st'.jobs[j].hasPath && token !in st'.tokens
  {
    var s1 := Do(st, TakeToken(r, token));
    var s2 := Do(s1, LookUp(r));
    assert s2.pickups[r] == Pickup(j, FoundJob, st.now) && s2.jobs == st.jobs;
  }

  /** From any run, a pickup whose open fails orphans the job's file: it is stored, but is no job's path and in
      nobody's hands. */
  lemma FailedOpenOrphans(steps: seq<Step>, j: nat, token: nat, r: nat)
    requires j !in Run(steps).jobs && token !in Run(steps).issued && r !in Run(steps).pickups
    ensures var st := Run(FailingPickup(Publishing(steps, j, token), r, token));
      j in st.files && !Owned(st, j)
  {
    var before := Publishing(steps, j, token);
    PublishingRun(steps, j, token);
    JobIsPublished(Run(steps), j, token);
    PathIsTaken(Run(before), j, token, r);
    var taken := before + [TakeToken(r, token)] + [LookUp(r)] + [TakePath(r)];
    RunOneMore(before, TakeToken(r, token));
    RunOneMore(before + [TakeToken(r, token)], LookUp(r));
    RunOneMore(before + [TakeToken(r, token)] + [LookUp(r)], TakePath(r));
    RunOneMore(taken, OpenFile(r, false));
    RunKeepsInv(taken);
    FaultOrphans(Run(taken), OpenFile(r, false), j);
  }
}
