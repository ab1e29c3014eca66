/** When files, paths and jobs of the downloader proxy go, in seconds: what the sweep may touch, how long a file is
    kept, and that a token gets its file in time and only in time. */
module FileTokenCourse {
  import opened Options
  import opened FileTokens

  /** The clock goes on to any later time, never back, and nothing else moves it or moves with it. */
  lemma OnlyTicksTakeTime(st: State, step: Step)
    ensures step.Tick? ==> Do(st, step) == st.(now := if step.t > st.now then step.t else st.now)
    ensures !step.Tick? ==> Do(st, step).now == st.now
  {
    if step.LookUp? || step.TakePath? || step.Discard? || step.OpenFile? || step.FinishServing? {
      DoesPickupStep(st, step);
      if step.r in st.pickups {
        PickupStepIsLocal(st, step.r, step);
      }
    }
  }

  // ---------------------------------------------------------------- the sweep

  /** Until 1800 seconds after its expiry the sweep leaves a job and its file as they are; so it does forever with a job
      that never got a file. */
  lemma SweepLeavesTheRest(st: State, j: nat, ok: bool)
    requires j in st.jobs
    requires st.jobs[j].expiresAt.None? || st.now <= st.jobs[j].expiresAt.value + 1800
    ensures Do(st, SweepJob(j, ok)) == st
  {
  }

  /** After that the path is taken from the job and the file removed, if the file system lets it; nothing else changes
      but, past 3600 seconds, the list of jobs. */
  lemma SweepTakesTheFile(st: State, j: nat, ok: bool)
    requires j in st.jobs && j in st.listed && st.jobs[j].status == Done && st.jobs[j].hasPath
    requires st.jobs[j].expiresAt.Some? && st.now > st.jobs[j].expiresAt.value + 1800
    ensures var st' := Do(st, SweepJob(j, ok));
      && st'.jobs == st.jobs[j := st.jobs[j].(hasPath := false)]
      && st'.files == (if ok then st.files - {j} else st.files)
      && st'.tokens == st.tokens && st'.issued == st.issued && st'.pickups == st.pickups && st'.now == st.now
      && st'.listed == if st.now > st.jobs[j].expiresAt.value + 3600 then st.listed - {j} else st.listed
  {
  }

  /** A listed job is forgotten by the sweep exactly when its expiry lies more than 3600 seconds back; no other step
      forgets one. */
  lemma ForgottenExactly(st: State, step: Step, j: nat)
    requires Inv(st) && j in st.listed
    ensures j !in Do(st, step).listed
      <==> step.SweepJob? && step.j == j && st.jobs[j].expiresAt.Some? && st.now > st.jobs[j].expiresAt.value + 3600
  {
    assert j in st.jobs && JobOk(st, j, st.jobs[j]);
  }

  /** The step is the publication of this job, with this token. */
  predicate Publishes(st: State, step: Step, j: nat) {
    step.Publish? && step.j == j && j in st.jobs && st.jobs[j].status == Storing && step.token !in st.issued
  }

  /** A job is done exactly by its publication; its file then expires 1800 seconds later, and neither that time nor the
      token ever changes. */
  lemma ExpiryIsSetOnce(st: State, step: Step, j: nat)
    requires j in st.jobs
    ensures j in Do(st, step).jobs
    ensures Publishes(st, step, j) ==> Do(st, step).jobs[j] == Job(Done, Some(step.token), Some(st.now + 1800), true)
    ensures !Publishes(st, step, j) ==>
      && (Do(st, step).jobs[j].status == Done <==> st.jobs[j].status == Done)
      && Do(st, step).jobs[j].expiresAt == st.jobs[j].expiresAt
      && Do(st, step).jobs[j].fileToken == st.jobs[j].fileToken
  {
    if step.LookUp? || step.TakePath? || step.Discard? || step.OpenFile? || step.FinishServing? {
      DoesPickupStep(st, step);
      if step.r in st.pickups {
        PickupStepIsLocal(st, step.r, step);
      }
    }
  }

  // ---------------------------------------------------------------- how long a file is kept

  predicate TokenTaken(st: State, j: nat) {
    exists r :: r in st.pickups && st.pickups[r].job == j
  }

  /** The job is listed, its token can be used, its path and its file are there. */
  predicate Retrievable(st: State, j: nat)
    requires j in st.jobs && st.jobs[j].fileToken.Some?
  {
    && st.jobs[j].fileToken.value in st.tokens && st.tokens[st.jobs[j].fileToken.value] == j
    && j in st.listed && st.jobs[j].hasPath && j in st.files
  }

  ghost predicate KeptInTime(st: State, j: nat) {
    j in st.jobs && st.jobs[j].status == Done ==>
      && st.jobs[j].fileToken.Some? && st.jobs[j].expiresAt.Some?
      && (TokenTaken(st, j) || st.now > st.jobs[j].expiresAt.value + 1800 || Retrievable(st, j))
  }

  lemma TakenStays(st: State, st': State, j: nat)
    requires forall r :: r in st.pickups ==> r in st'.pickups && st'.pickups[r].job == st.pickups[r].job
    ensures TokenTaken(st, j) ==> TokenTaken(st', j)
  {
    if TokenTaken(st, j) {
      var r :| r in st.pickups && st.pickups[r].job == j;
      assert r in st'.pickups && st'.pickups[r].job == j;
    }
  }

  lemma JobStepKeepsTime(st: State, step: Step, j: nat)
    requires Inv(st) && KeptInTime(st, j)
    requires step.StartRun? || step.RunFails? || step.StoreFile? || step.Publish? || step.Submit? || step.Tick?
    ensures KeptInTime(Do(st, step), j)
  {
    var st' := Do(st, step);
    assert st'.pickups == st.pickups;
    assert j in st.jobs ==> JobOk(st, j, st.jobs[j]);
    TakenStays(st, st', j);
  }

  /** The sweep of one job changes nothing of another. */
  lemma SweepTouchesItsJob(st: State, x: nat, ok: bool, j: nat)
    requires x != j
    ensures var st' := Do(st, SweepJob(x, ok));
      && (j in st'.jobs <==> j in st.jobs) && (j in st.jobs ==> st'.jobs[j] == st.jobs[j])
      && (j in st'.files <==> j in st.files) && (j in st'.listed <==> j in st.listed)
      && st'.tokens == st.tokens && st'.now == st.now
  {
  }

  lemma OwnSweepKeepsTime(st: State, j: nat, ok: bool)
    requires j in st.jobs && KeptInTime(st, j)
    ensures KeptInTime(Do(st, SweepJob(j, ok)), j)
  {
    var step := SweepJob(j, ok);
    assert Do(st, step).now == st.now;
    ExpiryIsSetOnce(st, step, j);
    TakenStays(st, Do(st, step), j);
    if st.jobs[j].expiresAt.Some? && st.now <= st.jobs[j].expiresAt.value + 1800 {
      SweepLeavesTheRest(st, j, ok);
    }
  }

  lemma SweepKeepsTime(st: State, step: Step, j: nat)
    requires KeptInTime(st, j) && step.SweepJob?
    ensures KeptInTime(Do(st, step), j)
  {
    if step.j != j {
      SweepTouchesItsJob(st, step.j, step.ok, j);
      TakenStays(st, Do(st, step), j);
    } else if j in st.jobs {
      OwnSweepKeepsTime(st, j, step.ok);
    }
  }

  lemma TakeTokenKeepsTime(st: State, step: Step, j: nat)
    requires Inv(st) && KeptInTime(st, j) && step.TakeToken?
    ensures KeptInTime(Do(st, step), j)
  {
    var st' := Do(st, step);
    if st' != st {
      assert st'.pickups[step.r].job == st.tokens[step.token];
      assert TokenOk(st, step.token, st.tokens[step.token]);
      TakenStays(st, st', j);
    }
  }

  /** What PickupStepIsLocal says, for any two states. */
  predicate LocalTo(st: State, st': State, r: nat)
    requires r in st.pickups
  {
    var j := st.pickups[r].job;
    && r in st'.pickups && st'.pickups[r].job == j && st'.pickups == st.pickups[r := st'.pickups[r]]
    && st' == st.(jobs := st'.jobs, files := st'.files, pickups := st'.pickups)
    && (st'.jobs == st.jobs || (j in st.jobs && st'.jobs == st.jobs[j := st.jobs[j].(hasPath := false)]))
    && (st'.files == st.files || st'.files == st.files - {j})
  }

  lemma LocalStepKeepsTime(st: State, st': State, r: nat, j: nat)
    requires r in st.pickups && LocalTo(st, st', r) && KeptInTime(st, j)
    ensures KeptInTime(st', j)
  {
    TakenStays(st, st', j);
    if st.pickups[r].job == j {
      assert TokenTaken(st, j);
    }
  }

  lemma PickupKeepsTime(st: State, step: Step, j: nat)
    requires KeptInTime(st, j)
    requires step.LookUp? || step.TakePath? || step.Discard? || step.OpenFile? || step.FinishServing?
    ensures KeptInTime(Do(st, step), j)
  {
    DoesPickupStep(st, step);
    if step.r in st.pickups {
      PickupStepIsLocal(st, step.r, step);
      LocalStepKeepsTime(st, PickupStep(st, step.r, step), step.r, j);
    }
  }

  lemma StepKeepsTime(st: State, step: Step, j: nat)
    requires Inv(st) && KeptInTime(st, j)
    ensures KeptInTime(Do(st, step), j)
  {
    if step.TakeToken? {
      TakeTokenKeepsTime(st, step, j);
    } else if step.SweepJob? {
      SweepKeepsTime(st, step, j);
    } else if step.LookUp? || step.TakePath? || step.Discard? || step.OpenFile? || step.FinishServing? {
      PickupKeepsTime(st, step, j);
    } else {
      JobStepKeepsTime(st, step, j);
    }
  }

  lemma {:induction false} AlwaysKeptInTime(steps: seq<Step>, j: nat)
    ensures KeptInTime(Run(steps), j)
  {
    if steps != [] {
      AlwaysKeptInTime(steps[..|steps| - 1], j);
      RunKeepsInv(steps[..|steps| - 1]);
      StepKeepsTime(Run(steps[..|steps| - 1]), steps[|steps| - 1], j);
    }
  }

  /** In every run a finished job's file is there, under its token, until some request takes the token or 1800 seconds
      have passed since it expired. */
  lemma KeptUntilTakenOrStale(steps: seq<Step>, j: nat)
    requires var st := Run(steps); j in st.jobs && st.jobs[j].status == Done && !TokenTaken(st, j)
    ensures var st := Run(steps);
      && st.jobs[j].fileToken.Some? && st.jobs[j].expiresAt.Some?
      && (st.now <= st.jobs[j].expiresAt.value + 1800 ==> Retrievable(st, j))
  {
    AlwaysKeptInTime(steps, j);
  }

  // ---------------------------------------------------------------- a token and its file

  /** After any run, the first request that comes with a finished job's token no later than its expiry, undisturbed and
      with a file system that works, is served the file, which is then gone. */
  lemma TimelyPickupIsServed(steps: seq<Step>, j: nat, r: nat)
    requires var st := Run(steps);
      && j in st.jobs && st.jobs[j].status == Done && !TokenTaken(st, j) && r !in st.pickups
      && st.jobs[j].expiresAt.Some? && st.now <= st.jobs[j].expiresAt.value
    ensures Run(steps).jobs[j].fileToken.Some?
    ensures var token := Run(steps).jobs[j].fileToken.value;
      var st' := PickedUp(Run(steps), r, token);
      Serves(st', r, j) && j !in st'.files && token !in st'.tokens
  {
    AlwaysKeptInTime(steps, j);
    TokenIsServed(Run(steps), j, Run(steps).jobs[j].fileToken.value, r);
  }

  /** A request whose token is not there is answered not found: nothing changes. */
  lemma UnknownTokenIsRefused(st: State, r: nat, token: nat)
    requires token !in st.tokens
    ensures Do(st, TakeToken(r, token)) == st
  {
  }

  /** The steps of a request that comes late. */
  function CameLate(st: State, r: nat, token: nat, ok: bool): State {
    Do(Do(Do(Do(st, TakeToken(r, token)), LookUp(r)), TakePath(r)), Discard(r, ok))
  }

  /** A request that comes after the expiry, the job still being listed, is refused and uses up the token; the file is
      removed if the file system lets it. */
  lemma LatePickupIsRefused(st: State, j: nat, token: nat, r: nat, ok: bool)
    requires r !in st.pickups && token in st.tokens && st.tokens[token] == j
    requires j in st.listed && j in st.jobs && st.jobs[j].status == Done && st.jobs[j].hasPath
    requires st.jobs[j].expiresAt.Some? && st.now > st.jobs[j].expiresAt.value
    ensures var st' := CameLate(st, r, token, ok);
      && r in st'.pickups && st'.pickups[r] == Pickup(j, Closed(false), st.now)
      && token !in st'.tokens && st'.files == (if ok then st.files - {j} else st.files)
      && j in st'.jobs && !st'.jobs[j].hasPath
  {
    var s1 := Do(st, TakeToken(r, token));
    var s2 := Do(s1, LookUp(r));
    assert s2.pickups[r] == Pickup(j, FoundJob, st.now) && s2.jobs == st.jobs && s2.files == st.files;
    var s3 := Do(s2, TakePath(r));
    assert s3.pickups[r] == Pickup(j, Discarding, st.now) && s3.files == st.files;
  }

  /** A request for a job that is forgotten, or whose path the sweep has taken, is refused too. */
  lemma NothingToPickUp(st: State, j: nat, token: nat, r: nat)
    requires r !in st.pickups && token in st.tokens && st.tokens[token] == j
    requires j !in st.listed || (j in st.jobs && st.jobs[j].status == Done && !st.jobs[j].hasPath)
    ensures var st' := Do(Do(Do(st, TakeToken(r, token)), LookUp(r)), TakePath(r));
      && r in st'.pickups && st'.pickups[r].phase == Closed(false) && st'.files == st.files && token !in st'.tokens
  {
    var s1 := Do(st, TakeToken(r, token));
    var s2 := Do(s1, LookUp(r));
    assert s2.pickups[r] == Pickup(j, if j in st.listed then FoundJob else Closed(false), st.now);
    assert s2.jobs == st.jobs;
  }

  /** A served request served its file, and one whose open failed did not. */
  lemma OpenDecides(st: State, r: nat, ok: bool, removed: bool)
    requires r in st.pickups && st.pickups[r].phase == Opening && st.pickups[r].job in st.files
    ensures var st' := Do(Do(st, OpenFile(r, ok)), FinishServing(r, removed));
      && r in st'.pickups && st'.pickups[r].phase == Closed(ok)
      && st'.files == if ok && removed then st.files - {st.pickups[r].job} else st.files
  {
    var s1 := Do(st, OpenFile(r, ok));
    assert s1.pickups[r].phase == if ok then Serving else Closed(false);
  }

  // ---------------------------------------------------------------- jobs that never get a file

  /** An identifier that does not parse makes an invalid job, a download that fails a failed one; neither ever changes
      again or has a token, a path or a file. */
  predicate Finished(status: Status) {
    status == Failed || status == Invalid
  }

  lemma SubmittedAndFailed(st: State, j: nat, valid: bool)
    requires j !in st.jobs
    ensures var st' := Do(st, Submit(j, valid));
      && st'.jobs == st.jobs[j := Job(if valid then Queued else Invalid, None, None, false)] && j in st'.listed
      && (valid ==> Do(Do(st', StartRun(j)), RunFails(j)).jobs == st.jobs[j := Job(Failed, None, None, false)])
      && (valid ==> Do(Do(st', StartRun(j)), RunFails(j)).files == st.files)
  {
    var st' := Do(st, Submit(j, valid));
    if valid {
      assert Do(st', StartRun(j)).jobs == st.jobs[j := Job(Running, None, None, false)];
    }
  }

  lemma FinishedStays(st: State, step: Step, j: nat)
    requires Inv(st) && j in st.jobs && Finished(st.jobs[j].status)
    ensures j in Do(st, step).jobs && Do(st, step).jobs[j] == st.jobs[j]
  {
    assert JobOk(st, j, st.jobs[j]);
    if step.LookUp? || step.TakePath? || step.Discard? || step.OpenFile? || step.FinishServing? {
      DoesPickupStep(st, step);
      if step.r in st.pickups {
        PickupStepIsLocal(st, step.r, step);
        assert PickupOk(st, step.r, st.pickups[step.r]);
      }
    }
  }

  lemma {:induction false} RefusedJobsGetNothing(steps: seq<Step>, n: nat, j: nat)
    requires n <= |steps| && j in Run(steps[..n]).jobs && Finished(Run(steps[..n]).jobs[j].status)
    ensures j in Run(steps).jobs && Run(steps).jobs[j] == Run(steps[..n]).jobs[j]
    ensures Run(steps).jobs[j].fileToken == None && !Run(steps).jobs[j].hasPath && j !in Run(steps).files
    decreases |steps|
  {
    RunKeepsInv(steps);
    if n < |steps| {
      var before := steps[..|steps| - 1];
      assert before[..n] == steps[..n];
      RefusedJobsGetNothing(before, n, j);
      RunKeepsInv(before);
      FinishedStays(Run(before), steps[|steps| - 1], j);
    } else {
      assert steps[..n] == steps;
    }
    assert JobOk(Run(steps), j, Run(steps).jobs[j]);
  }
}
