/** The temporary directories of the UI cache: which process has one, and when one stays behind. */
module UiCacheDirs {
  import opened Bundle
  import opened UiCache

  /** The process stages in this directory, or is about to remove it. */
  predicate Has(phase: Phase, temp: nat) {
    (phase.Staging? && phase.temp == temp) || (phase.CleaningUp? && phase.temp == temp)
  }

  ghost predicate SomeoneHas(st: State, temp: nat) {
    exists p :: p in st.procs && Has(st.procs[p], temp)
  }

  /** The directory exists and no live process has it. */
  ghost predicate LeftBehind(st: State, temp: nat) {
    temp in st.temps && !SomeoneHas(st, temp)
  }

  /** The step is the crash of the process that has this directory, or its failing Remove, while it exists. */
  predicate Loses(st: State, step: Step, temp: nat) {
    && (step.Crash? || (step.Remove? && !step.ok && step.p in st.procs && st.procs[step.p].CleaningUp?))
    && step.p in st.procs && Has(st.procs[step.p], temp) && temp in st.temps
  }

  ghost predicate LosesAt(env: Env, version: string, start: State, steps: seq<Step>, i: nat, temp: nat)
    requires i < |steps|
  {
    Loses(Run(env, version, start, steps[..i]), steps[i], temp)
  }

  ghost predicate Lost(env: Env, version: string, start: State, steps: seq<Step>, temp: nat) {
    exists i: nat :: i < |steps| && LosesAt(env, version, start, steps, i, temp)
  }

  /** Directories in use and directories made are older than the next name. */
  ghost predicate Named(st: State, temp: nat) {
    temp in st.temps || SomeoneHas(st, temp) ==> temp < st.nextTemp
  }

  // ---------------------------------------------------------------- one step

  /** Only one process at a time has a directory. */
  lemma OneHasIt(env: Env, version: string, st: State, p: nat, q: nat, temp: nat)
    requires Inv(env, version, st) && p in st.procs && q in st.procs && Has(st.procs[p], temp) && HoldsLock(st.procs[q])
    ensures p == q
  {
    assert HoldsLock(st.procs[p]);
  }

  lemma SameHolding(st: State, st': State, p: nat, temp: nat)
    requires p in st'.procs && st'.procs == st.procs[p := st'.procs[p]]
    requires Has(st'.procs[p], temp) <==> p in st.procs && Has(st.procs[p], temp)
    ensures SomeoneHas(st', temp) <==> SomeoneHas(st, temp)
  {
    if q :| q in st.procs && Has(st.procs[q], temp) {
      assert q in st'.procs && Has(st'.procs[q], temp);
    }
    if q :| q in st'.procs && Has(st'.procs[q], temp) {
      assert q in st.procs && Has(st.procs[q], temp);
    }
  }

  /** The process that had the directory no longer does, so nobody does. */
  lemma NobodyHasIt(env: Env, version: string, st: State, st': State, p: nat, temp: nat)
    requires Inv(env, version, st) && p in st.procs && Has(st.procs[p], temp)
    requires p in st'.procs && st'.procs == st.procs[p := st'.procs[p]] && !Has(st'.procs[p], temp)
    ensures !SomeoneHas(st', temp)
  {
    forall q | q in st'.procs ensures !Has(st'.procs[q], temp) {
      if q != p && Has(st.procs[q], temp) {
        OneHasIt(env, version, st, p, q, temp);
      }
    }
  }

  /** What one step does to the process that takes it and to one directory. */
  ghost predicate Effect(st: State, st': State, step: Step, temp: nat) {
    var p := step.p;
    && p in st.procs && p in st'.procs && st'.procs == st.procs[p := st'.procs[p]]
    && st.nextTemp <= st'.nextTemp
    && (if Has(st.procs[p], temp) then
          if Has(st'.procs[p], temp) then (temp in st'.temps ==> temp in st.temps) && !Loses(st, step, temp)
          else temp in st'.temps <==> Loses(st, step, temp)
        else
          && !Loses(st, step, temp)
          && (if Has(st'.procs[p], temp) then temp == st.nextTemp < st'.nextTemp
              else temp in st'.temps <==> temp in st.temps))
  }

  lemma ReadHasNoEffect(env: Env, version: string, st: State, step: Step, temp: nat)
    requires step.p in st.procs && (step.Stat? || step.ReadSha? || step.ReadBundle?)
    ensures Effect(st, ReadStep(env, version, st, step.p, step), step, temp)
  {
  }

  lemma PublishEffect(env: Env, version: string, st: State, step: Step, temp: nat)
    requires Inv(env, version, st) && step.p in st.procs
    requires !(step.Begin? || step.Stat? || step.ReadSha? || step.ReadBundle?)
    ensures Effect(st, PublishStep(env, version, st, step.p, step), step, temp)
  {
    if st.procs[step.p].Staging? {
      StagingEffect(env, version, st, step, temp);
    } else if st.procs[step.p].CleaningUp? {
      CleaningEffect(env, version, st, step, temp);
    }
  }

  lemma StagingEffect(env: Env, version: string, st: State, step: Step, temp: nat)
    requires Inv(env, version, st) && step.p in st.procs && st.procs[step.p].Staging?
    requires !(step.Begin? || step.Stat? || step.ReadSha? || step.ReadBundle?)
    ensures Effect(st, PublishStep(env, version, st, step.p, step), step, temp)
  {
    assert PhaseOk(env, version, st.slot, st.temps, st.procs[step.p]);
  }

  lemma CleaningEffect(env: Env, version: string, st: State, step: Step, temp: nat)
    requires step.p in st.procs && st.procs[step.p].CleaningUp?
    requires !(step.Begin? || step.Stat? || step.ReadSha? || step.ReadBundle?)
    ensures Effect(st, PublishStep(env, version, st, step.p, step), step, temp)
  {
  }

  lemma EffectOnLeftBehind(env: Env, version: string, st: State, st': State, step: Step, temp: nat)
    requires Inv(env, version, st) && Named(st, temp) && Effect(st, st', step, temp)
    ensures Named(st', temp)
    ensures LeftBehind(st', temp) <==> LeftBehind(st, temp) || Loses(st, step, temp)
  {
    var p := step.p;
    if Has(st.procs[p], temp) == Has(st'.procs[p], temp) {
      SameHolding(st, st', p, temp);
    } else if Has(st.procs[p], temp) {
      NobodyHasIt(env, version, st, st', p, temp);
    }
  }

  lemma OneStep(env: Env, version: string, st: State, step: Step, temp: nat)
    requires Inv(env, version, st) && Named(st, temp)
    ensures var st' := Do(env, version, st, step);
      && Named(st', temp)
      && (LeftBehind(st', temp) <==> LeftBehind(st, temp) || Loses(st, step, temp))
  {
    var st' := Do(env, version, st, step);
    if step.p !in st.procs {
      if step.Begin? {
        SameHolding(st, st', step.p, temp);
      }
    } else if !step.Begin? {
      if step.Stat? || step.ReadSha? || step.ReadBundle? {
        ReadHasNoEffect(env, version, st, step, temp);
      } else {
        PublishEffect(env, version, st, step, temp);
      }
      EffectOnLeftBehind(env, version, st, st', step, temp);
    }
  }

  // ---------------------------------------------------------------- whole runs

  lemma LostSoFar(env: Env, version: string, start: State, steps: seq<Step>, temp: nat)
    requires steps != []
    ensures var before, step := steps[..|steps| - 1], steps[|steps| - 1];
      Lost(env, version, start, steps, temp)
      <==> Lost(env, version, start, before, temp) || Loses(Run(env, version, start, before), step, temp)
  {
    var n := |steps| - 1;
    var before := steps[..n];
    if Lost(env, version, start, before, temp) {
      var i :| 0 <= i < n && LosesAt(env, version, start, before, i, temp);
      assert before[..i] == steps[..i];
      assert LosesAt(env, version, start, steps, i, temp);
    }
    if i :| 0 <= i < n && LosesAt(env, version, start, steps, i, temp) {
      assert before[..i] == steps[..i];
      assert LosesAt(env, version, start, before, i, temp);
    }
    if Loses(Run(env, version, start, before), steps[n], temp) {
      assert LosesAt(env, version, start, steps, n, temp);
    }
  }

  lemma {:induction false} LeftBehindSoFar(env: Env, version: string, start: State, steps: seq<Step>, temp: nat)
    requires start.procs == map[] && start.published == 0 && temp !in start.temps
    ensures Named(Run(env, version, start, steps), temp)
    ensures LeftBehind(Run(env, version, start, steps), temp) <==> Lost(env, version, start, steps, temp)
  {
    if steps != [] {
      var before := steps[..|steps| - 1];
      LeftBehindSoFar(env, version, start, before, temp);
      EveryRunIsReached(env, version, start, before);
      OneStep(env, version, Run(env, version, start, before), steps[|steps| - 1], temp);
      LostSoFar(env, version, start, steps, temp);
    }
  }

  /** After any run a temporary directory made in it exists without a process that has it, exactly when its process
      crashed while it was there or failed to remove it. */
  lemma LeftBehindExactly(env: Env, version: string, start: State, steps: seq<Step>, temp: nat)
    requires start.procs == map[] && start.published == 0 && temp !in start.temps
    ensures LeftBehind(Run(env, version, start, steps), temp) <==> Lost(env, version, start, steps, temp)
  {
    LeftBehindSoFar(env, version, start, steps, temp);
  }
}
