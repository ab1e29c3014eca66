/** What becomes of one process of the UI cache: which answer its reads give, how it ends, and who has the lock. */
module UiCacheCourse {
  import opened Hex
  import opened Options
  import opened Bundle
  import opened UiCache

  // ---------------------------------------------------------------- reading the cache

  /** A file "sha256" that holds this digest: 64 hexadecimal digits in either case. */
  predicate SpellsDigest(text: string, digest: Bytes) {
    |digest| == 32 && Spells(text, digest)
  }

  lemma DigestIsReadExactly(c: Content, digest: Bytes)
    ensures CachedDigest(c) == Some(digest) <==> c.sha.Some? && SpellsDigest(c.sha.value, digest)
  {
    if c.sha.Some? {
      DecodesExactly(c.sha.value, digest);
    }
  }

  /** The directory holds an archive openBundle accepts under the digest beside it, with these files. */
  ghost predicate HoldsTree(env: Env, version: string, c: Content, digest: Bytes, files: map<string, Bytes>) {
    && c.sha.Some? && SpellsDigest(c.sha.value, digest)
    && c.bundle.Some? && Acceptable(env, c.bundle.value, digest, version)
    && files == FilesOf(env.decode(c.bundle.value).value.entries)
  }

  /** The cache is a miss when there is nothing, valid when it holds a tree, and invalid otherwise. */
  lemma CacheReadsExactly(env: Env, version: string, slot: Slot, files: map<string, Bytes>)
    ensures ReadCache(env, version, slot) == NotThere <==> slot.Absent?
    ensures ReadCache(env, version, slot) == Valid(files)
      <==> slot.Folder? && exists digest: Bytes :: HoldsTree(env, version, slot.content, digest, files)
  {
    if slot.Folder? {
      var c := slot.content;
      if ReadCache(env, version, slot) == Valid(files) {
        DigestIsReadExactly(c, CachedDigest(c).value);
        assert HoldsTree(env, version, c, CachedDigest(c).value, files);
      }
      if digest: Bytes :| HoldsTree(env, version, c, digest, files) {
        DigestIsReadExactly(c, digest);
      }
    }
  }

  /** The three reads of readCache, none of which fails, with nobody in between. */
  ghost function AllReads(env: Env, version: string, st: State, p: nat): State {
    Do(env, version, Do(env, version, Do(env, version, st, Stat(p)), ReadSha(p, true)), ReadBundle(p, true))
  }

  /** The process has ended, and the lock is free if it was its own; nothing else has changed. */
  predicate EndsWith(st: State, st': State, p: nat, outcome: Outcome) {
    st' == st.(procs := st.procs[p := Finished(outcome)], lock := if st.lock == Some(p) then None else st.lock)
  }

  lemma DigestIsRead(env: Env, version: string, st: State, p: nat, again: bool)
    requires p in st.procs && st.procs[p] == FoundDirectory(again) && st.slot.Folder?
    ensures var digest := CachedDigest(st.slot.content);
      if digest.None? then EndsWith(st, Do(env, version, st, ReadSha(p, true)), p, Failed)
      else Do(env, version, st, ReadSha(p, true)) == st.(procs := st.procs[p := ReadDigest(again, digest.value)])
  {
  }

  lemma BundleIsRead(env: Env, version: string, st: State, p: nat, again: bool, digest: Bytes)
    requires p in st.procs && st.procs[p] == ReadDigest(again, digest)
    requires st.slot.Folder? && CachedDigest(st.slot.content) == Some(digest)
    ensures match ReadCache(env, version, st.slot)
      case Valid(files) => EndsWith(st, Do(env, version, st, ReadBundle(p, true)), p, Opened(files))
      case _ => EndsWith(st, Do(env, version, st, ReadBundle(p, true)), p, Failed)
  {
  }

  lemma EndedReadsNothing(env: Env, version: string, st: State, p: nat)
    requires p in st.procs && st.procs[p].Finished?
    ensures Do(env, version, st, ReadBundle(p, true)) == st
  {
  }

  lemma FolderIsRead(env: Env, version: string, st: State, p: nat, again: bool)
    requires p in st.procs && st.procs[p] == Looking(again) && st.slot.Folder?
    ensures match ReadCache(env, version, st.slot)
      case Valid(files) => EndsWith(st, AllReads(env, version, st, p), p, Opened(files))
      case _ => EndsWith(st, AllReads(env, version, st, p), p, Failed)
  {
    var s1 := Do(env, version, st, Stat(p));
    assert s1 == st.(procs := st.procs[p := FoundDirectory(again)]);
    DigestIsRead(env, version, s1, p, again);
    var s2 := Do(env, version, s1, ReadSha(p, true));
    var digest := CachedDigest(st.slot.content);
    if digest.Some? {
      BundleIsRead(env, version, s2, p, again, digest.value);
    } else {
      EndedReadsNothing(env, version, s2, p);
    }
  }

  /** Step by step a process reads what readCache would at once: from any state, at its first look and under the
      lock, a valid cache ends it with the tree, an invalid one with an error, and a miss sends it on to the lock
      or to the download. */
  lemma ReadsAreReadCache(env: Env, version: string, st: State, p: nat, again: bool)
    requires p in st.procs && st.procs[p] == Looking(again)
    ensures match ReadCache(env, version, st.slot)
      case Valid(files) => EndsWith(st, AllReads(env, version, st, p), p, Opened(files))
      case Invalid => EndsWith(st, AllReads(env, version, st, p), p, Failed)
      case NotThere =>
        AllReads(env, version, st, p) == st.(procs := st.procs[p := if again then Downloading else WantsLock])
  {
    match st.slot
    case Folder(_) => FolderIsRead(env, version, st, p, again);
    case Absent =>
      var s1 := Do(env, version, st, Stat(p));
      assert s1 == st.(procs := st.procs[p := if again then Downloading else WantsLock]);
    case Foreign =>
      assert EndsWith(st, Do(env, version, st, Stat(p)), p, Failed);
  }

  /** Every start after the first: a new process finds the valid cache and returns its tree, without the lock. */
  lemma ValidCacheIsOpened(env: Env, version: string, st: State, p: nat, files: map<string, Bytes>)
    requires p !in st.procs && ReadCache(env, version, st.slot) == Valid(files)
    ensures EndsWith(st, AllReads(env, version, Do(env, version, st, Begin(p)), p), p, Opened(files))
  {
    var st' := Do(env, version, st, Begin(p));
    assert st' == st.(procs := st.procs[p := Looking(false)]);
    ReadsAreReadCache(env, version, st', p, false);
  }

  /** The lock holder looks again: what another process completed meanwhile is returned, and the lock is free. */
  lemma SecondLookIsOpened(env: Env, version: string, st: State, p: nat, files: map<string, Bytes>)
    requires p in st.procs && st.procs[p] == Looking(true) && st.lock == Some(p)
    requires ReadCache(env, version, st.slot) == Valid(files)
    ensures AllReads(env, version, st, p) == st.(procs := st.procs[p := Finished(Opened(files))], lock := None)
  {
    ReadsAreReadCache(env, version, st, p, true);
  }

  /** The step is a failure of this process: a failing read, a time-out, a crash. */
  predicate Fails(step: Step, p: nat) {
    step in {ReadSha(p, false), ReadBundle(p, false), GiveUp(p), Crash(p)}
  }

  /** Where a process that began with this valid cache may be. */
  predicate OnItsWay(phase: Phase, files: map<string, Bytes>) {
    phase == Looking(false) || phase == FoundDirectory(false) || (phase.ReadDigest? && !phase.again)
    || phase == Finished(Opened(files))
  }

  ghost predicate HitBy(env: Env, version: string, st: State, p: nat, files: map<string, Bytes>) {
    && ReadCache(env, version, st.slot) == Valid(files)
    && p in st.procs && OnItsWay(st.procs[p], files)
    && PhaseOk(env, version, st.slot, st.temps, st.procs[p])
  }

  lemma OthersKeepIt(env: Env, version: string, st: State, step: Step, p: nat)
    requires p in st.procs && step.p != p
    ensures p in Do(env, version, st, step).procs && Do(env, version, st, step).procs[p] == st.procs[p]
  {
  }

  lemma StepKeepsHit(env: Env, version: string, st: State, step: Step, p: nat, files: map<string, Bytes>)
    requires HitBy(env, version, st, p, files) && !Fails(step, p)
    requires Do(env, version, st, step).slot == st.slot
    ensures HitBy(env, version, Do(env, version, st, step), p, files)
  {
    if step.p != p {
      OthersKeepIt(env, version, st, step, p);
    } else if step.Stat? || step.ReadSha? || step.ReadBundle? {
      assert Do(env, version, st, step) == ReadStep(env, version, st, p, step);
    }
  }

  /** Whatever the other processes do in between, a process that began when the cache was valid returns its tree,
      unless one of its own calls fails: it is never sent to the lock or the download, and never ends otherwise. */
  lemma {:induction false} ValidCacheIsReturned(env: Env, version: string, start: State, steps: seq<Step>, n: nat,
                                                p: nat, files: map<string, Bytes>)
    requires start.procs == map[] && start.published == 0
    requires n < |steps| && steps[n] == Begin(p) && p !in Run(env, version, start, steps[..n]).procs
    requires ReadCache(env, version, Run(env, version, start, steps[..n]).slot) == Valid(files)
    requires forall i :: n < i < |steps| ==> !Fails(steps[i], p)
    ensures HitBy(env, version, Run(env, version, start, steps), p, files)
    decreases |steps|
  {
    var before := steps[..|steps| - 1];
    if n == |steps| - 1 {
      assert Run(env, version, start, steps) == Do(env, version, Run(env, version, start, before), Begin(p));
    } else {
      assert before[..n] == steps[..n];
      ValidCacheIsReturned(env, version, start, before, n, p, files);
      assert steps[..|before|] == before;
      CacheNeverChangesAgain(env, version, start, steps, |before|);
      StepKeepsHit(env, version, Run(env, version, start, before), steps[|steps| - 1], p, files);
    }
  }

  // ---------------------------------------------------------------- ends

  /** A failure before anything is staged ends the process with an error and changes nothing else. */
  lemma FailureEndsIt(env: Env, version: string, st: State, step: Step)
    requires step.p in st.procs
    requires match st.procs[step.p]
      case Looking(_) => step.GiveUp?
      case FoundDirectory(_) => step.ReadSha? && !step.ok
      case ReadDigest(_, _) => step.ReadBundle? && !step.ok
      case WantsLock => step.GiveUp?
      case Downloading => step.GiveUp? || (step.Download? && !Good(env, version, step.data, step.digest))
      case Verified(_, _) => step.GiveUp?
      case _ => false
    ensures EndsWith(st, Do(env, version, st, step), step.p, Failed)
  {
  }

  /** A failure while staging, or a refused rename, removes the directory first and ends with an error all the same. */
  lemma StagingFailureCleansUp(env: Env, version: string, st: State, step: Step, ok: bool)
    requires step.p in st.procs && st.procs[step.p].Staging?
    requires step.GiveUp? || (step.Rename? && !step.ok && st.procs[step.p].stage == Staged)
    ensures var p, temp := step.p, st.procs[step.p].temp;
      EndsWith(st.(temps := if ok then st.temps - {temp} else st.temps),
               Do(env, version, Do(env, version, st, step), Remove(p, ok)), p, Failed)
  {
    var s1 := Do(env, version, st, step);
    assert s1 == st.(procs := st.procs[step.p := CleaningUp(st.procs[step.p].temp, Failed)]);
  }

  /** A crash leaves files as they are, and the operating system gives the lock back. */
  lemma CrashFreesTheLock(env: Env, version: string, st: State, p: nat)
    requires p in st.procs && !st.procs[p].Finished?
    ensures Do(env, version, st, Crash(p))
        == st.(procs := st.procs[p := Crashed], lock := if st.lock == Some(p) then None else st.lock)
  {
  }

  /** Files may be written in any pieces. */
  lemma WritesAdd(env: Env, version: string, st: State, p: nat, n: nat, k: nat)
    requires p in st.procs && st.procs[p].Staging? && st.procs[p].temp in st.temps
    ensures Do(env, version, Do(env, version, st, Write(p, n)), Write(p, k)) == Do(env, version, st, Write(p, n + k))
  {
    var x := st.procs[p];
    assert AfterWrite(AfterWrite(x.stage, n), k) == AfterWrite(x.stage, n + k);
  }

  /** A file holds the first bytes of what it is to hold. */
  predicate Begun<T(==)>(file: Option<seq<T>>, whole: seq<T>) {
    file.None? || file.value <= whole
  }

  /** How much is in the two files. */
  function Held(c: Content): nat {
    (if c.bundle.Some? then |c.bundle.value| else 0) + if c.sha.Some? then |c.sha.value| else 0
  }

  lemma ContentGrows(data: Bytes, digest: Bytes, stage: Stage, n: nat)
    ensures var content := StagedContent(data, digest, stage);
      && Begun(content.bundle, data) && Begun(content.sha, Encode(digest)) && !content.others
      && (content.sha.Some? ==> content.bundle == Some(data))
      && Held(content) <= Held(StagedContent(data, digest, AfterWrite(stage, n))) <= Held(content) + n
  {
  }

  lemma ClosingAddsNothing(data: Bytes, digest: Bytes, stage: Stage)
    ensures StagedContent(data, digest, AfterClose(data, digest, stage)) == StagedContent(data, digest, stage)
  {
    assert data[..|data|] == data && Encode(digest)[..|Encode(digest)|] == Encode(digest);
  }

  lemma WriteStages(env: Env, version: string, st: State, p: nat, n: nat, temp: nat, data: Bytes, digest: Bytes,
                    stage: Stage)
    requires p in st.procs && st.procs[p] == Staging(temp, data, digest, stage)
    ensures Do(env, version, st, Write(p, n)).temps
            == st.temps[temp := StagedContent(data, digest, AfterWrite(stage, n))]
  {
  }

  lemma CloseStages(env: Env, version: string, st: State, p: nat, temp: nat, data: Bytes, digest: Bytes, stage: Stage)
    requires p in st.procs && st.procs[p] == Staging(temp, data, digest, stage)
    ensures Do(env, version, st, CloseFile(p)).temps
            == st.temps[temp := StagedContent(data, digest, AfterClose(data, digest, stage))]
  {
  }

  /** While a process stages, its directory holds the first bytes of the verified archive and, once that is whole,
      of its digest. */
  lemma StagedFilesAreBegun(env: Env, version: string, st: State, p: nat, temp: nat, data: Bytes, digest: Bytes,
                            stage: Stage)
    requires Inv(env, version, st) && p in st.procs && st.procs[p] == Staging(temp, data, digest, stage)
    ensures temp in st.temps
    ensures var content := st.temps[temp];
      && Begun(content.bundle, data) && Begun(content.sha, Encode(digest)) && !content.others
      && (content.sha.Some? ==> content.bundle == Some(data))
  {
    assert PhaseOk(env, version, st.slot, st.temps, st.procs[p]);
    ContentGrows(data, digest, stage, 0);
  }

  /** A Write adds at most its n bytes to the two files of its own directory; CloseFile adds nothing. */
  lemma StagedFilesGrow(env: Env, version: string, st: State, p: nat, n: nat, temp: nat, data: Bytes, digest: Bytes,
                        stage: Stage)
    requires p in st.procs && st.procs[p] == Staging(temp, data, digest, stage)
    requires temp in st.temps && st.temps[temp] == StagedContent(data, digest, stage)
    ensures var temps := Do(env, version, st, Write(p, n)).temps;
      && temp in temps && temps == st.temps[temp := temps[temp]]
      && Held(st.temps[temp]) <= Held(temps[temp]) <= Held(st.temps[temp]) + n
    ensures Do(env, version, st, CloseFile(p)).temps == st.temps
  {
    WriteStages(env, version, st, p, n, temp, data, digest, stage);
    CloseStages(env, version, st, p, temp, data, digest, stage);
    ContentGrows(data, digest, stage, n);
    ClosingAddsNothing(data, digest, stage);
  }

  // ---------------------------------------------------------------- the lock

  ghost predicate LockIsUsed(st: State) {
    st.lock.Some? ==> st.lock.value in st.procs && HoldsLock(st.procs[st.lock.value])
  }

  /** A process that has the lock keeps it while its phase needs it, and no other process takes it. */
  lemma LockFollowsPhase(env: Env, version: string, st: State, step: Step)
    requires step.p in st.procs && !step.Begin? && (HoldsLock(st.procs[step.p]) ==> st.lock == Some(step.p))
    ensures var st' := Do(env, version, st, step);
      && step.p in st'.procs
      && (st'.lock == st.lock || (st'.lock == Some(step.p) && HoldsLock(st'.procs[step.p])) || st'.lock == None)
      && (st.lock == Some(step.p) && HoldsLock(st.procs[step.p]) && !HoldsLock(st'.procs[step.p]) ==> st'.lock == None)
  {
  }

  lemma StepKeepsLockUsed(env: Env, version: string, st: State, step: Step)
    requires Inv(env, version, st) && LockIsUsed(st)
    ensures LockIsUsed(Do(env, version, st, step))
  {
    if step.p in st.procs {
      assert HoldsLock(st.procs[step.p]) ==> st.lock == Some(step.p);
      if !step.Begin? {
        LockFollowsPhase(env, version, st, step);
        if st.lock.Some? && st.lock.value != step.p {
          OthersKeepIt(env, version, st, step, st.lock.value);
        }
      }
    }
  }

  lemma {:induction false} LockIsAlwaysUsed(env: Env, version: string, start: State, steps: seq<Step>)
    requires start.procs == map[] && start.published == 0 && start.lock == None
    ensures LockIsUsed(Run(env, version, start, steps))
  {
    if steps != [] {
      var before := steps[..|steps| - 1];
      LockIsAlwaysUsed(env, version, start, before);
      EveryRunIsReached(env, version, start, before);
      StepKeepsLockUsed(env, version, Run(env, version, start, before), steps[|steps| - 1]);
    }
  }

  /** The lock is held by the process between its second look and its end, and by no other: neither an ended nor a
      crashed process keeps it, so a waiting process gets it exactly when no live one is there. */
  lemma LockIsHeldExactly(env: Env, version: string, start: State, steps: seq<Step>, p: nat, q: nat)
    requires start.procs == map[] && start.published == 0 && start.lock == None
    ensures var st := Run(env, version, start, steps);
      && (st.lock == Some(p) <==> p in st.procs && HoldsLock(st.procs[p]))
      && (q in st.procs && st.procs[q] == WantsLock ==>
            (Do(env, version, st, TryLock(q)).lock == Some(q)
             <==> forall x :: x in st.procs ==> !HoldsLock(st.procs[x])))
  {
    EveryRunIsReached(env, version, start, steps);
    LockIsAlwaysUsed(env, version, start, steps);
  }
}
