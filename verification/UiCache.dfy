/** The version-specific UI cache with any number of resolver processes: read, lock, read again,
    download, stage, rename, clean up.  Every step may be the last one before a crash. */
module UiCache {
  import opened Bundle
  import opened Hex
  import opened Options

  /** What a directory holds; `others` tells of any further file. */
  datatype Content = Content(bundle: Option<Bytes>, sha: Option<string>, others: bool)

  /** The version's cache path: nothing, a directory, or something else. */
  datatype Slot = Absent | Folder(content: Content) | Foreign

  datatype Outcome = Opened(files: map<string, Bytes>) | Failed

  /** Where a staging process is: how much of which file it has written. */
  datatype Stage = Made | BundlePart(n: nat) | BundleDone | ShaPart(n: nat) | Staged

  datatype Phase =
    | Looking(again: bool)
    | FoundDirectory(again: bool)
    | ReadDigest(again: bool, digest: Bytes)
    | WantsLock
    | Downloading
    | Verified(data: Bytes, digest: Bytes)
    | Staging(temp: nat, data: Bytes, digest: Bytes, stage: Stage)
    | CleaningUp(temp: nat, outcome: Outcome)
    | Finished(outcome: Outcome)
    | Crashed

  /** Temporary directories have names of their own; `lock` is the holder of the flock. */
  datatype State = State(
    slot: Slot, temps: map<nat, Content>, nextTemp: nat, lock: Option<nat>, procs: map<nat, Phase>, published: nat)

  datatype Step =
    | Begin(p: nat)
    | Stat(p: nat)
    | ReadSha(p: nat, ok: bool)
    | ReadBundle(p: nat, ok: bool)
    | TryLock(p: nat)
    | GiveUp(p: nat)
    | Download(p: nat, data: Bytes, digest: Bytes)
    | MakeTemp(p: nat)
    | Write(p: nat, n: nat)
    | CloseFile(p: nat)
    | Rename(p: nat, ok: bool)
    | Remove(p: nat, ok: bool)
    | Crash(p: nat)

  datatype Read = NotThere | Invalid | Valid(files: map<string, Bytes>)

  /** openBundle's answer. */
  ghost function Open(env: Env, data: Bytes, digest: Bytes, version: string): Option<map<string, Bytes>> {
    if Acceptable(env, data, digest, version) then Some(FilesOf(env.decode(data).value.entries)) else None
  }

  /** The digest in the "sha256" file, when it is a digest. */
  function CachedDigest(c: Content): Option<Bytes> {
    if c.sha.None? || |c.sha.value| > 64 then None
    else
      var d := Decode(c.sha.value);
      if d.Some? && |d.value| == 32 then d else None
  }

  /** readCache, had it read everything at once. */
  ghost function ReadCache(env: Env, version: string, slot: Slot): Read {
    match slot
    case Absent => NotThere
    case Foreign => Invalid
    case Folder(c) =>
      if CachedDigest(c).None? || c.bundle.None? || |c.bundle.value| > MAX_BUNDLE_SIZE then Invalid
      else match Open(env, c.bundle.value, CachedDigest(c).value, version)
        case Some(files) => Valid(files)
        case None => Invalid
  }

  // ---------------------------------------------------------------- steps

  function Enter(st: State, p: nat, phase: Phase): State {
    st.(procs := st.procs[p := phase])
  }

  /** Leaving resolve closes the lock file. */
  function Leave(st: State, p: nat, phase: Phase): State {
    Enter(st, p, phase).(lock := if st.lock == Some(p) then None else st.lock)
  }

  function StagedContent(data: Bytes, digest: Bytes, stage: Stage): Content {
    match stage
    case Made => Content(None, None, false)
    case BundlePart(n) => Content(Some(if n <= |data| then data[..n] else data), None, false)
    case BundleDone => Content(Some(data), None, false)
    case ShaPart(n) =>
      Content(Some(data), Some(if n <= |Encode(digest)| then Encode(digest)[..n] else Encode(digest)), false)
    case Staged => Content(Some(data), Some(Encode(digest)), false)
  }

  /** A write call puts up to n more bytes into the file being written. */
  function AfterWrite(stage: Stage, n: nat): Stage {
    match stage
    case Made => BundlePart(n)
    case BundlePart(k) => BundlePart(k + n)
    case BundleDone => ShaPart(n)
    case ShaPart(k) => ShaPart(k + n)
    case Staged => Staged
  }

  /** Sync and close succeed only when all bytes are written. */
  function AfterClose(data: Bytes, digest: Bytes, stage: Stage): Stage {
    match stage
    case BundlePart(n) => if n >= |data| then BundleDone else stage
    case ShaPart(n) => if n >= |Encode(digest)| then Staged else stage
    case _ => stage
  }

  function Stages(st: State, p: nat, temp: nat, data: Bytes, digest: Bytes, stage: Stage): State {
    Enter(st, p, Staging(temp, data, digest, stage)).(temps := st.temps[temp := StagedContent(data, digest, stage)])
  }

  /** rename(2) of a directory: the target must be missing or an empty directory. */
  predicate RenameAllowed(slot: Slot) {
    slot.Absent? || slot == Folder(Content(None, None, false))
  }

  ghost function ReadStep(env: Env, version: string, st: State, p: nat, step: Step): State
    requires p in st.procs
  {
    match (step, st.procs[p])
    case (Stat(_), Looking(again)) =>
      (match st.slot
       case Absent => Enter(st, p, if again then Downloading else WantsLock)
       case Folder(_) => Enter(st, p, FoundDirectory(again))
       case Foreign => Leave(st, p, Finished(Failed)))
    case (ReadSha(_, ok), FoundDirectory(again)) =>
      if ok && st.slot.Folder? && CachedDigest(st.slot.content).Some?
      then Enter(st, p, ReadDigest(again, CachedDigest(st.slot.content).value))
      else Leave(st, p, Finished(Failed))
    case (ReadBundle(_, ok), ReadDigest(again, digest)) =>
      if !ok || !st.slot.Folder? || st.slot.content.bundle.None? || |st.slot.content.bundle.value| > MAX_BUNDLE_SIZE
      then Leave(st, p, Finished(Failed))
      else (match Open(env, st.slot.content.bundle.value, digest, version)
            case Some(files) => Leave(st, p, Finished(Opened(files)))
            case None => Leave(st, p, Finished(Failed)))
    case _ => st
  }

  function Publish(st: State, p: nat, temp: nat, files: map<string, Bytes>): State
    requires temp in st.temps
  {
    Enter(st, p, CleaningUp(temp, Opened(files)))
    .(slot := Folder(st.temps[temp]), temps := st.temps - {temp}, published := st.published + 1)
  }

  ghost function PublishStep(env: Env, version: string, st: State, p: nat, step: Step): State
    requires p in st.procs
  {
    match (step, st.procs[p])
    case (TryLock(_), WantsLock) => if st.lock.None? then Enter(st, p, Looking(true)).(lock := Some(p)) else st
    case (Download(_, data, digest), Downloading) =>
      if |digest| == 32 && Acceptable(env, data, digest, version) then Enter(st, p, Verified(data, digest))
      else Leave(st, p, Finished(Failed))
    case (MakeTemp(_), Verified(data, digest)) =>
      Stages(st, p, st.nextTemp, data, digest, Made).(nextTemp := st.nextTemp + 1)
    case (Write(_, n), Staging(temp, data, digest, stage)) => Stages(st, p, temp, data, digest, AfterWrite(stage, n))
    case (CloseFile(_), Staging(temp, data, digest, stage)) =>
      Stages(st, p, temp, data, digest, AfterClose(data, digest, stage))
    case (Rename(_, ok), Staging(temp, data, digest, Staged)) =>
      if ok && RenameAllowed(st.slot) && temp in st.temps && Open(env, data, digest, version).Some? then
        Publish(st, p, temp, Open(env, data, digest, version).value)
      else Enter(st, p, CleaningUp(temp, Failed))
    case (Remove(_, ok), CleaningUp(temp, outcome)) =>
      Leave(st, p, Finished(outcome)).(temps := if ok then st.temps - {temp} else st.temps)
    case (GiveUp(_), Looking(_)) => Leave(st, p, Finished(Failed))
    case (GiveUp(_), WantsLock) => Leave(st, p, Finished(Failed))
    case (GiveUp(_), Downloading) => Leave(st, p, Finished(Failed))
    case (GiveUp(_), Verified(_, _)) => Leave(st, p, Finished(Failed))
    case (GiveUp(_), Staging(temp, _, _, _)) => Enter(st, p, CleaningUp(temp, Failed))
    case (Crash(_), Finished(_)) => st
    case (Crash(_), _) => Leave(st, p, Crashed)
    case _ => st
  }

  /** One step of one process; a step that is not enabled does nothing. */
  ghost function Do(env: Env, version: string, st: State, step: Step): State {
    if step.Begin? then
      if step.p in st.procs then st else Enter(st, step.p, Looking(false))
    else if step.p !in st.procs then st
    else if step.Stat? || step.ReadSha? || step.ReadBundle? then ReadStep(env, version, st, step.p, step)
    else PublishStep(env, version, st, step.p, step)
  }

  /** Any interleaving, from any contents of the version's slot. */
  ghost function Run(env: Env, version: string, start: State, steps: seq<Step>): State {
    if steps == [] then start
    else Do(env, version, Run(env, version, start, steps[..|steps| - 1]), steps[|steps| - 1])
  }

  // ---------------------------------------------------------------- the invariant

  predicate HoldsLock(phase: Phase) {
    || (phase.Looking? && phase.again) || (phase.FoundDirectory? && phase.again) || (phase.ReadDigest? && phase.again)
    || phase.Downloading? || phase.Verified? || phase.Staging? || phase.CleaningUp?
  }

  ghost predicate Good(env: Env, version: string, data: Bytes, digest: Bytes) {
    |digest| == 32 && Acceptable(env, data, digest, version)
  }

  ghost predicate OutcomeOk(env: Env, version: string, slot: Slot, outcome: Outcome) {
    outcome.Opened? ==> ReadCache(env, version, slot) == Valid(outcome.files)
  }

  ghost predicate PhaseOk(env: Env, version: string, slot: Slot, temps: map<nat, Content>, phase: Phase) {
    match phase
    case FoundDirectory(_) => slot.Folder?
    case ReadDigest(_, digest) => slot.Folder? && CachedDigest(slot.content) == Some(digest)
    case Downloading => slot.Absent?
    case Verified(data, digest) => slot.Absent? && Good(env, version, data, digest)
    case Staging(temp, data, digest, stage) =>
      && slot.Absent? && Good(env, version, data, digest)
      && temp in temps && temps[temp] == StagedContent(data, digest, stage)
    case CleaningUp(_, outcome) => OutcomeOk(env, version, slot, outcome)
    case Finished(outcome) => OutcomeOk(env, version, slot, outcome)
    case _ => true
  }

  ghost predicate Inv(env: Env, version: string, st: State) {
    forall p :: p in st.procs ==>
      && PhaseOk(env, version, st.slot, st.temps, st.procs[p])
      && (HoldsLock(st.procs[p]) ==> st.lock == Some(p))
  }

  /** A complete cache directory: the archive, its digest in hex, accepted by openBundle. */
  ghost predicate CompleteFor(env: Env, version: string, slot: Slot) {
    && slot.Folder? && !slot.content.others
    && slot.content.bundle.Some? && slot.content.sha.Some?
    && exists digest: Bytes ::
         Good(env, version, slot.content.bundle.value, digest) && slot.content.sha.value == Encode(digest)
  }

  lemma WrittenDigestReadsBack(c: Content, digest: Bytes)
    requires |digest| == 32 && c.sha == Some(Encode(digest))
    ensures CachedDigest(c) == Some(digest)
  {
    DecodeEncode(digest);
  }

  /** What a process staged reads back as what it verified. */
  lemma StagedReadsBack(env: Env, version: string, data: Bytes, digest: Bytes)
    requires Good(env, version, data, digest)
    ensures ReadCache(env, version, Folder(StagedContent(data, digest, Staged)))
            == Valid(FilesOf(env.decode(data).value.entries))
    ensures CompleteFor(env, version, Folder(StagedContent(data, digest, Staged)))
  {
    WrittenDigestReadsBack(StagedContent(data, digest, Staged), digest);
  }

  /** A step that changes only its own process, keeps the slot, and touches temporary directories only under
      the lock concerns nobody else. */
  ghost predicate OwnStep(env: Env, version: string, st: State, st': State, p: nat) {
    && p in st.procs && p in st'.procs && st'.procs == st.procs[p := st'.procs[p]]
    && st'.slot == st.slot
    && (st'.temps == st.temps || HoldsLock(st.procs[p]))
    && (st'.lock == st.lock || (st.lock == Some(p) && st'.lock == None) || (st.lock == None && st'.lock == Some(p)))
    && PhaseOk(env, version, st'.slot, st'.temps, st'.procs[p])
    && (HoldsLock(st'.procs[p]) ==> st'.lock == Some(p))
  }

  lemma OwnStepKeepsInv(env: Env, version: string, st: State, st': State, p: nat)
    requires Inv(env, version, st) && OwnStep(env, version, st, st', p)
    ensures Inv(env, version, st')
  {
    forall q | q in st'.procs
      ensures PhaseOk(env, version, st'.slot, st'.temps, st'.procs[q])
      ensures HoldsLock(st'.procs[q]) ==> st'.lock == Some(q)
    {
      if q != p {
        assert PhaseOk(env, version, st.slot, st.temps, st.procs[q]);
      }
    }
  }

  lemma ReadStepKeepsInv(env: Env, version: string, st: State, p: nat, step: Step)
    requires Inv(env, version, st) && p in st.procs
    ensures Inv(env, version, ReadStep(env, version, st, p, step))
    ensures ReadStep(env, version, st, p, step).slot == st.slot
  {
    assert PhaseOk(env, version, st.slot, st.temps, st.procs[p]);
    OwnStepKeepsInv(env, version, st, ReadStep(env, version, st, p, step), p);
  }

  lemma PublishKeepsInv(env: Env, version: string, st: State, p: nat, temp: nat, data: Bytes, digest: Bytes)
    requires Inv(env, version, st) && p in st.procs && st.procs[p] == Staging(temp, data, digest, Staged)
    ensures Inv(env, version, Publish(st, p, temp, FilesOf(env.decode(data).value.entries)))
    ensures st.slot.Absent? && CompleteFor(env, version, Folder(st.temps[temp]))
  {
    StagedReadsBack(env, version, data, digest);
    var st' := Publish(st, p, temp, FilesOf(env.decode(data).value.entries));
    forall q | q in st'.procs
      ensures PhaseOk(env, version, st'.slot, st'.temps, st'.procs[q])
      ensures HoldsLock(st'.procs[q]) ==> st'.lock == Some(q)
    {
      if q != p {
        assert !HoldsLock(st.procs[q]);
      }
    }
  }

  lemma PublishStepKeepsInv(env: Env, version: string, st: State, p: nat, step: Step)
    requires Inv(env, version, st) && p in st.procs
    ensures Inv(env, version, PublishStep(env, version, st, p, step))
  {
    var st' := PublishStep(env, version, st, p, step);
    assert PhaseOk(env, version, st.slot, st.temps, st.procs[p]);
    if step.Rename? && st.procs[p].Staging? && st.procs[p].stage == Staged {
      RenameKeepsInv(env, version, st, p, step.ok);
    } else {
      OwnStepKeepsInv(env, version, st, st', p);
    }
  }

  lemma RenameKeepsInv(env: Env, version: string, st: State, p: nat, ok: bool)
    requires Inv(env, version, st) && p in st.procs && st.procs[p].Staging? && st.procs[p].stage == Staged
    ensures Inv(env, version, PublishStep(env, version, st, p, Rename(p, ok)))
  {
    var st' := PublishStep(env, version, st, p, Rename(p, ok));
    var x := st.procs[p];
    PublishKeepsInv(env, version, st, p, x.temp, x.data, x.digest);
    if st'.slot == st.slot {
      assert st'.procs[p] == CleaningUp(x.temp, Failed);
      OwnStepKeepsInv(env, version, st, st', p);
    }
  }

  /** Only the rename changes the slot, and only from nothing to a complete directory. */
  lemma OnlyRenamePublishes(env: Env, version: string, st: State, p: nat, step: Step)
    requires Inv(env, version, st) && p in st.procs
    ensures var st' := PublishStep(env, version, st, p, step);
      if st'.slot == st.slot then st'.published == st.published
      else st.slot.Absent? && CompleteFor(env, version, st'.slot) && st'.published == st.published + 1
  {
    match (step, st.procs[p])
    case (Rename(_, _), Staging(temp, data, digest, Staged)) =>
      PublishKeepsInv(env, version, st, p, temp, data, digest);
    case _ =>
  }

  /** Every reachable state: the slot is as found, or was missing and now holds one complete publication. */
  ghost predicate Reached(env: Env, version: string, found: Slot, st: State) {
    && Inv(env, version, st)
    && if st.published == 0 then st.slot == found
       else st.published == 1 && found.Absent? && CompleteFor(env, version, st.slot)
  }

  lemma {:induction false} EveryRunIsReached(env: Env, version: string, start: State, steps: seq<Step>)
    requires start.procs == map[] && start.published == 0
    ensures Reached(env, version, start.slot, Run(env, version, start, steps))
  {
    if steps != [] {
      EveryRunIsReached(env, version, start, steps[..|steps| - 1]);
      StepIsReached(env, version, start.slot, Run(env, version, start, steps[..|steps| - 1]), steps[|steps| - 1]);
    }
  }

  lemma StepIsReached(env: Env, version: string, found: Slot, st: State, step: Step)
    requires Reached(env, version, found, st)
    ensures Reached(env, version, found, Do(env, version, st, step))
  {
    if step.Begin? || step.p !in st.procs {
    } else if step.Stat? || step.ReadSha? || step.ReadBundle? {
      ReadStepKeepsInv(env, version, st, step.p, step);
    } else {
      PublishStepKeepsInv(env, version, st, step.p, step);
      OnlyRenamePublishes(env, version, st, step.p, step);
    }
  }

  // ---------------------------------------------------------------- the theorems

  /** With any number of processes and crashes the slot is as it was found or, if it was missing, a complete
      archive with its own digest; it is published at most once. */
  lemma CacheIsAbsentOrComplete(env: Env, version: string, start: State, steps: seq<Step>)
    requires start.procs == map[] && start.published == 0
    ensures var st := Run(env, version, start, steps);
      && st.published <= 1
      && (st.slot == start.slot || (start.slot.Absent? && CompleteFor(env, version, st.slot)))
  {
    EveryRunIsReached(env, version, start, steps);
  }

  /** Once there is something at the path, good or bad, no later step changes it. */
  lemma {:induction false} CacheNeverChangesAgain(env: Env, version: string, start: State, steps: seq<Step>, n: nat)
    requires start.procs == map[] && start.published == 0 && n <= |steps|
    requires !Run(env, version, start, steps[..n]).slot.Absent?
    ensures Run(env, version, start, steps).slot == Run(env, version, start, steps[..n]).slot
    decreases |steps|
  {
    if n < |steps| {
      var before := steps[..|steps| - 1];
      assert before[..n] == steps[..n];
      CacheNeverChangesAgain(env, version, start, before, n);
      EveryRunIsReached(env, version, start, before);
      EveryRunIsReached(env, version, start, steps);
      var st, step := Run(env, version, start, before), steps[|steps| - 1];
      if !step.Begin? && step.p in st.procs {
        if step.Stat? || step.ReadSha? || step.ReadBundle? {
          ReadStepKeepsInv(env, version, st, step.p, step);
        } else {
          OnlyRenamePublishes(env, version, st, step.p, step);
        }
      }
    } else {
      assert steps[..n] == steps;
    }
  }

  /** Any two processes that return a tree return the same one, and it is what the cache holds. */
  lemma OpenedTreesAgree(env: Env, version: string, start: State, steps: seq<Step>, p: nat, q: nat)
    requires start.procs == map[] && start.published == 0
    requires var procs := Run(env, version, start, steps).procs;
      && p in procs && procs[p].Finished? && procs[p].outcome.Opened?
      && q in procs && procs[q].Finished? && procs[q].outcome.Opened?
    ensures var st := Run(env, version, start, steps);
      && st.procs[p].outcome.files == st.procs[q].outcome.files
      && ReadCache(env, version, st.slot) == Valid(st.procs[p].outcome.files)
  {
    EveryRunIsReached(env, version, start, steps);
  }

  /** An existing invalid cache is left alone and nobody gets a tree from it. */
  lemma InvalidCacheFailsClosed(env: Env, version: string, start: State, steps: seq<Step>, p: nat)
    requires start.procs == map[] && start.published == 0
    requires ReadCache(env, version, start.slot) == Invalid
    ensures var st := Run(env, version, start, steps);
      && st.slot == start.slot
      && (p in st.procs && st.procs[p].Finished? ==> st.procs[p].outcome == Failed)
  {
    EveryRunIsReached(env, version, start, steps);
  }

  /** Downloading, staging, renaming and removing are one process at a time. */
  lemma OnePublisherAtATime(env: Env, version: string, start: State, steps: seq<Step>, p: nat, q: nat)
    requires start.procs == map[] && start.published == 0
    requires var procs := Run(env, version, start, steps).procs;
      p in procs && HoldsLock(procs[p]) && q in procs && HoldsLock(procs[q])
    ensures p == q
  {
    EveryRunIsReached(env, version, start, steps);
  }

  // ---------------------------------------------------------------- the ordinary course

  /** One process finds nothing, locks, still finds nothing, and verifies its download. */
  ghost function Fetched(env: Env, version: string, st: State, p: nat, data: Bytes, digest: Bytes): State {
    var s1 := Do(env, version, Do(env, version, st, Begin(p)), Stat(p));
    Do(env, version, Do(env, version, Do(env, version, s1, TryLock(p)), Stat(p)), Download(p, data, digest))
  }

  /** It writes both files into its own directory, renames it and cleans up. */
  ghost function Written(env: Env, version: string, st: State, p: nat, data: Bytes, digest: Bytes): State {
    var s1 := Do(env, version, Do(env, version, st, MakeTemp(p)), Write(p, |data|));
    var s2 := Do(env, version, Do(env, version, s1, CloseFile(p)), Write(p, |Encode(digest)|));
    Do(env, version, s2, CloseFile(p))
  }

  ghost function Renamed(env: Env, version: string, st: State, p: nat): State {
    Do(env, version, Do(env, version, st, Rename(p, true)), Remove(p, true))
  }

  lemma FirstProcessLocks(env: Env, version: string, st: State, p: nat)
    requires p !in st.procs && st.slot.Absent? && st.lock == None
    ensures var s2 := Do(env, version, Do(env, version, st, Begin(p)), Stat(p));
      Do(env, version, Do(env, version, s2, TryLock(p)), Stat(p))
      == st.(procs := st.procs[p := Downloading], lock := Some(p))
  {
    var s1 := Do(env, version, st, Begin(p));
    assert s1 == st.(procs := st.procs[p := Looking(false)]);
    var s2 := Do(env, version, s1, Stat(p));
    assert s2 == st.(procs := st.procs[p := WantsLock]);
    var s3 := Do(env, version, s2, TryLock(p));
    assert s3 == st.(procs := st.procs[p := Looking(true)], lock := Some(p));
  }

  lemma FirstProcessVerifies(env: Env, version: string, st: State, p: nat, data: Bytes, digest: Bytes)
    requires p !in st.procs && st.slot.Absent? && st.lock == None && Good(env, version, data, digest)
    ensures Fetched(env, version, st, p, data, digest)
        == st.(procs := st.procs[p := Verified(data, digest)], lock := Some(p))
  {
    FirstProcessLocks(env, version, st, p);
    GoodDownloadIsVerified(env, version, st.(procs := st.procs[p := Downloading], lock := Some(p)), p, data, digest);
  }

  lemma GoodDownloadIsVerified(env: Env, version: string, st: State, p: nat, data: Bytes, digest: Bytes)
    requires p in st.procs && st.procs[p] == Downloading && Good(env, version, data, digest)
    ensures Do(env, version, st, Download(p, data, digest)) == Enter(st, p, Verified(data, digest))
  {
  }

  ghost predicate StagedAt(st: State, st': State, p: nat, data: Bytes, digest: Bytes, stage: Stage) {
    && st' == st.(procs := st'.procs, temps := st'.temps, nextTemp := st.nextTemp + 1)
    && p in st'.procs && st'.procs[p] == Staging(st.nextTemp, data, digest, stage)
    && st.nextTemp in st'.temps && st'.temps[st.nextTemp] == StagedContent(data, digest, stage)
  }

  lemma BundleIsWritten(env: Env, version: string, st: State, p: nat, data: Bytes, digest: Bytes)
    requires p in st.procs && st.procs[p] == Verified(data, digest)
    ensures StagedAt(st, Do(env, version, Do(env, version, Do(env, version, st, MakeTemp(p)), Write(p, |data|)),
        CloseFile(p)),
                     p, data, digest, BundleDone)
  {
    var s1 := Do(env, version, st, MakeTemp(p));
    assert StagedAt(st, s1, p, data, digest, Made);
    StageWrites(env, version, st, s1, p, data, digest, Made, |data|);
    StageCloses(env, version, st, Do(env, version, s1, Write(p, |data|)), p, data, digest, BundlePart(|data|));
  }

  lemma DigestIsWritten(env: Env, version: string, st: State, s1: State, p: nat, data: Bytes, digest: Bytes)
    requires StagedAt(st, s1, p, data, digest, BundleDone)
    ensures StagedAt(st, Do(env, version, Do(env, version, s1, Write(p, |Encode(digest)|)), CloseFile(p)),
                     p, data, digest, Staged)
  {
    var s2 := Do(env, version, s1, Write(p, |Encode(digest)|));
    StageWrites(env, version, st, s1, p, data, digest, BundleDone, |Encode(digest)|);
    StageCloses(env, version, st, s2, p, data, digest, ShaPart(|Encode(digest)|));
  }

  lemma StageWrites(env: Env, version: string, st: State, s1: State, p: nat, data: Bytes, digest: Bytes, stage: Stage,
                    n: nat)
    requires StagedAt(st, s1, p, data, digest, stage)
    ensures StagedAt(st, Do(env, version, s1, Write(p, n)), p, data, digest, AfterWrite(stage, n))
  {
  }

  lemma StageCloses(env: Env, version: string, st: State, s1: State, p: nat, data: Bytes, digest: Bytes, stage: Stage)
    requires StagedAt(st, s1, p, data, digest, stage)
    ensures StagedAt(st, Do(env, version, s1, CloseFile(p)), p, data, digest, AfterClose(data, digest, stage))
  {
  }

  lemma VerifiedIsWritten(env: Env, version: string, st: State, p: nat, data: Bytes, digest: Bytes)
    requires p in st.procs && st.procs[p] == Verified(data, digest)
    ensures StagedAt(st, Written(env, version, st, p, data, digest), p, data, digest, Staged)
  {
    BundleIsWritten(env, version, st, p, data, digest);
    var s1 := Do(env, version, Do(env, version, Do(env, version, st, MakeTemp(p)), Write(p, |data|)), CloseFile(p));
    DigestIsWritten(env, version, st, s1, p, data, digest);
  }

  lemma StagedIsRenamed(env: Env, version: string, st: State, p: nat, temp: nat, data: Bytes, digest: Bytes,
                        files: map<string, Bytes>)
    requires p in st.procs && st.procs[p] == Staging(temp, data, digest, Staged)
    requires st.slot.Absent? && temp in st.temps && Open(env, data, digest, version) == Some(files)
    ensures Do(env, version, st, Rename(p, true)) == Publish(st, p, temp, files)
  {
  }

  lemma PublishedIsCleanedUp(env: Env, version: string, st: State, p: nat, temp: nat, files: map<string, Bytes>)
    requires p in st.procs && st.procs[p] == CleaningUp(temp, Opened(files)) && st.lock == Some(p)
    ensures var st' := Do(env, version, st, Remove(p, true));
      && st'.slot == st.slot && st'.lock == None && temp !in st'.temps
      && p in st'.procs && st'.procs[p] == Finished(Opened(files))
  {
  }

  /** From nothing to a published cache, by one process alone. */
  ghost function Alone(env: Env, version: string, st: State, p: nat, data: Bytes, digest: Bytes): State {
    Renamed(env, version, Written(env, version, Fetched(env, version, st, p, data, digest), p, data, digest), p)
  }

  /** With nothing cached and the lock free, an undisturbed process with a good download publishes it: the slot
      is complete, the tree is returned, the lock is free again and no temporary directory remains. */
  lemma UndisturbedProcessPublishes(env: Env, version: string, st: State, p: nat, data: Bytes, digest: Bytes)
    requires p !in st.procs && st.slot.Absent? && st.lock == None && Good(env, version, data, digest)
    ensures var st' := Alone(env, version, st, p, data, digest);
      && CompleteFor(env, version, st'.slot) && st'.lock == None && st.nextTemp !in st'.temps
      && p in st'.procs && st'.procs[p] == Finished(Opened(FilesOf(env.decode(data).value.entries)))
  {
    var s1 := Fetched(env, version, st, p, data, digest);
    FirstProcessVerifies(env, version, st, p, data, digest);
    var s2 := Written(env, version, s1, p, data, digest);
    VerifiedIsWritten(env, version, s1, p, data, digest);
    var files := FilesOf(env.decode(data).value.entries);
    StagedIsRenamed(env, version, s2, p, st.nextTemp, data, digest, files);
    PublishedIsCleanedUp(env, version, Publish(s2, p, st.nextTemp, files), p, st.nextTemp, files);
    StagedReadsBack(env, version, data, digest);
  }
}
