/** Concrete behaviours of the PostgreSQL store, built step by step. */
module PgExamples {
  import opened CommentStore
  import opened PgStore
  import opened PgRefinement
  import opened PgRuns
  import CommentQueries
  import MemStore
  import PgHistory
  import SincePolling

  /** Nothing runs and nothing is locked. */
  predicate Quiet(m: Machine) {
    m.txns == map[] && m.locks == map[]
  }

  /** A creation that has begun runs to its end. */
  function Completing(steps: seq<Step>, tx: nat): seq<Step> {
    steps + [InsertRow(tx)] + [Reread(tx)] + [Commit(tx)]
  }

  function Alone(steps: seq<Step>, tx: nat, c: Call): seq<Step> {
    Completing(steps + [Begin(tx, c)], tx)
  }

  predicate PlainCreation(db: Db, c: Call) {
    Constraints(c.op) &&
    match c.op
    case CreateDiscussion(input) => input.status == "" && c.id !in db.discussions
    case CreateReply(input) => c.id !in db.replies && input.discussionID in db.discussions
    case _ => false
  }

  lemma Commits(steps: seq<Step>, tx: nat, c: Call, row: Outcome, e: Entry, result: Outcome)
    requires Feasible(steps) && tx in Final(steps).txns && Final(steps).txns[tx] == Txn(c, Answered(row, e, result))
    ensures Feasible(steps + [Commit(tx)])
    ensures var m, m' := Final(steps), Final(steps + [Commit(tx)]);
      && m'.db == Append(Store(m.db, row), e) && m'.txns == m.txns - {tx}
      && m'.locks == map t | t in m.locks && m.locks[t] != tx :: m.locks[t]
  {
    OneMoreStep(steps, Commit(tx));
  }

  lemma Rereads(steps: seq<Step>, tx: nat, c: Call, row: Outcome, e: Entry)
    requires Feasible(steps) && tx in Final(steps).txns && Final(steps).txns[tx] == Txn(c, Written(row, e))
    ensures Feasible(steps + [Reread(tx)])
    ensures var m := Final(steps);
      Final(steps + [Reread(tx)]) == m.(txns := m.txns[tx := Txn(c, Answered(row, e, Projection(m.db, row)))])
  {
    OneMoreStep(steps, Reread(tx));
  }

  lemma Inserts(steps: seq<Step>, tx: nat, c: Call)
    requires Feasible(steps) && tx in Final(steps).txns && Final(steps).txns[tx] == Txn(c, Began)
    requires PlainCreation(Final(steps).db, c)
    ensures Feasible(steps + [InsertRow(tx)])
    ensures var m := Final(steps);
      Final(steps + [InsertRow(tx)]) == m.(txns := m.txns[tx := Txn(c, Written(NewRow(c), NoEntry))])
  {
    OneMoreStep(steps, InsertRow(tx));
  }

  lemma Begins(steps: seq<Step>, tx: nat, c: Call)
    requires Feasible(steps) && tx !in Final(steps).txns && UnusedID(Final(steps), c) && !EmptyReasonCall(c)
    requires Normal(c) == c
    ensures Feasible(steps + [Begin(tx, c)])
    ensures var m := Final(steps); Final(steps + [Begin(tx, c)]) == m.(txns := m.txns[tx := Txn(c, Began)])
  {
    OneMoreStep(steps, Begin(tx, c));
  }

  lemma Completes(steps: seq<Step>, tx: nat, c: Call)
    requires Feasible(steps) && tx in Final(steps).txns && Final(steps).txns[tx] == Txn(c, Began)
    requires PlainCreation(Final(steps).db, c)
    ensures Feasible(Completing(steps, tx))
    ensures var m, m' := Final(steps), Final(Completing(steps, tx));
      && m'.db == Store(m.db, NewRow(c)) && m'.txns == m.txns - {tx}
      && m'.locks == map t | t in m.locks && m.locks[t] != tx :: m.locks[t]
  {
    var m := Final(steps);
    Inserts(steps, tx, c);
    var s1 := steps + [InsertRow(tx)];
    Rereads(s1, tx, c, NewRow(c), NoEntry);
    Commits(s1 + [Reread(tx)], tx, c, NewRow(c), NoEntry, Projection(m.db, NewRow(c)));
  }

  lemma CreatedAlone(steps: seq<Step>, tx: nat, c: Call)
    requires Feasible(steps) && Quiet(Final(steps)) && PlainCreation(Final(steps).db, c)
    ensures Feasible(Alone(steps, tx, c)) && Quiet(Final(Alone(steps, tx, c)))
    ensures Final(Alone(steps, tx, c)).db == Store(Final(steps).db, NewRow(c))
  {
    Begins(steps, tx, c);
    Completes(steps + [Begin(tx, c)], tx, c);
  }

  // ---------------------------------------------------------------- an edit in two parts

  function Locking(steps: seq<Step>, tx: nat): seq<Step> {
    steps + [LockRow(tx)] + [InsertHistory(tx)]
  }

  function Finishing(steps: seq<Step>, tx: nat): seq<Step> {
    steps + [UpdateRow(tx)] + [Reread(tx)] + [Commit(tx)]
  }

  predicate ReadyToEdit(m: Machine, tx: nat, c: Call) {
    && tx in m.txns && m.txns[tx] == Txn(c, Began) && c.op.EditBody?
    && HasRow(m.db, c.op.target) && CasHolds(RowIn(m.db, c.op.target), c.op) && c.op.target !in m.locks
  }

  lemma Locks(steps: seq<Step>, tx: nat, c: Call)
    requires Feasible(steps) && ReadyToEdit(Final(steps), tx, c)
    ensures Feasible(steps + [LockRow(tx)])
    ensures var m := Final(steps);
      Final(steps + [LockRow(tx)])
      == m.(txns := m.txns[tx := Txn(c, Locked(RowIn(m.db, c.op.target)))], locks := m.locks[c.op.target := tx])
  {
    OneMoreStep(steps, LockRow(tx));
  }

  lemma Logs(steps: seq<Step>, tx: nat, c: Call, image: Outcome)
    requires Feasible(steps) && tx in Final(steps).txns && Final(steps).txns[tx] == Txn(c, Locked(image))
    requires c.op.EditBody?
    ensures Feasible(steps + [InsertHistory(tx)])
    ensures var m := Final(steps);
      var e := HistoryEntry(m.db, image, c);
      Final(steps + [InsertHistory(tx)])
        == m.(db := Draw(m.db, e), txns := m.txns[tx := Txn(c, Phase.Logged(image, e))])
  {
    OneMoreStep(steps, InsertHistory(tx));
  }

  lemma LocksAndLogs(steps: seq<Step>, tx: nat, c: Call)
    requires Feasible(steps) && ReadyToEdit(Final(steps), tx, c)
    ensures Feasible(Locking(steps, tx))
    ensures var m := Final(steps);
      var image := RowIn(m.db, c.op.target);
      var e := HistoryEntry(m.db, image, c);
      Final(Locking(steps, tx))
      == m.(db := Draw(m.db, e), txns := m.txns[tx := Txn(c, Phase.Logged(image, e))],
        locks := m.locks[c.op.target := tx])
  {
    var m := Final(steps);
    var image := RowIn(m.db, c.op.target);
    Locks(steps, tx, c);
    Logs(steps + [LockRow(tx)], tx, c, image);
    SetTwice(m.txns, tx, Txn(c, Locked(image)), Txn(c, Phase.Logged(image, HistoryEntry(m.db, image, c))));
  }

  lemma UpdatesAndRereads(steps: seq<Step>, tx: nat, c: Call, image: Outcome, e: Entry)
    requires Feasible(steps) && tx in Final(steps).txns && Final(steps).txns[tx] == Txn(c, Phase.Logged(image, e))
    requires c.op.EditBody? && HasRow(Final(steps).db, c.op.target)
    ensures Feasible(steps + [UpdateRow(tx)] + [Reread(tx)])
    ensures var m := Final(steps);
      var row := Updated(RowIn(m.db, c.op.target), c);
      Final(steps + [UpdateRow(tx)] + [Reread(tx)])
        == m.(txns := m.txns[tx := Txn(c, Answered(row, e, Projection(m.db, row)))])
  {
    var m := Final(steps);
    var row := Updated(RowIn(m.db, c.op.target), c);
    Updates(steps, tx, c, image, e);
    Rereads(steps + [UpdateRow(tx)], tx, c, row, e);
    SetTwice(m.txns, tx, Txn(c, Written(row, e)), Txn(c, Answered(row, e, Projection(m.db, row))));
  }

  lemma SetTwice(txns: map<nat, Txn>, tx: nat, x: Txn, y: Txn)
    ensures txns[tx := x][tx := y] == txns[tx := y]
  {
  }

  lemma Updates(steps: seq<Step>, tx: nat, c: Call, image: Outcome, e: Entry)
    requires Feasible(steps) && tx in Final(steps).txns && Final(steps).txns[tx] == Txn(c, Phase.Logged(image, e))
    requires c.op.EditBody? && HasRow(Final(steps).db, c.op.target)
    ensures Feasible(steps + [UpdateRow(tx)])
    ensures var m := Final(steps);
      Final(steps + [UpdateRow(tx)])
      == m.(txns := m.txns[tx := Txn(c, Written(Updated(RowIn(m.db, c.op.target), c), e))])
  {
    OneMoreStep(steps, UpdateRow(tx));
  }

  lemma Finishes(steps: seq<Step>, tx: nat, c: Call, image: Outcome, e: Entry)
    requires Feasible(steps) && tx in Final(steps).txns && Final(steps).txns[tx] == Txn(c, Phase.Logged(image, e))
    requires c.op.EditBody? && HasRow(Final(steps).db, c.op.target)
    ensures Feasible(Finishing(steps, tx))
    ensures var m, m' := Final(steps), Final(Finishing(steps, tx));
      && m'.db == Append(Store(m.db, Updated(RowIn(m.db, c.op.target), c)), e)
      && m'.txns == m.txns - {tx}
      && m'.locks == map t | t in m.locks && m.locks[t] != tx :: m.locks[t]
  {
    var m := Final(steps);
    var row := Updated(RowIn(m.db, c.op.target), c);
    UpdatesAndRereads(steps, tx, c, image, e);
    Commits(steps + [UpdateRow(tx)] + [Reread(tx)], tx, c, row, e, Projection(m.db, row));
    assert m.txns[tx := Txn(c, Answered(row, e, Projection(m.db, row)))] - {tx} == m.txns - {tx};
  }

  // ---------------------------------------------------------------- an edit that begins first and is logged last

  const NEW_DISCUSSION :=
    Call(CreateDiscussion(CreateDiscussionInput("qa_p", "r", 0, 1, "note", "public", "", "", "b", "u", "")), 1, "d")
  const NEW_REPLY := Call(CreateReply(CreateReplyInput("d", "b", "u", "")), 2, "r")
  const FIRST_EDIT := Call(EditBody(OnDiscussion("d"), 1, "x", "u"), 10, "")
  const SECOND_EDIT := Call(EditBody(OnReply("r"), 1, "y", "u"), 20, "")

  /** Both edits have begun, the discussion's first. */
  function BothBegun(): seq<Step> {
    Alone(Alone([], 1, NEW_DISCUSSION), 2, NEW_REPLY) + [Begin(3, FIRST_EDIT)] + [Begin(4, SECOND_EDIT)]
  }

  lemma BothBegin()
    ensures Feasible(BothBegun()) && TwoBegun(Final(BothBegun()))
  {
    BothCreated();
    BothBeginFrom(Alone(Alone([], 1, NEW_DISCUSSION), 2, NEW_REPLY));
  }

  /** Fresh rows, nothing running. */
  predicate TwoCreated(m: Machine) {
    && Quiet(m) && m.db.revisions == Table(map[], 0)
    && m.db.discussions == map["d" := FirstImage().discussion] && m.db.replies == map["r" := SecondImage().reply]
  }

  lemma BothCreated()
    ensures var steps := Alone(Alone([], 1, NEW_DISCUSSION), 2, NEW_REPLY); Feasible(steps) && TwoCreated(Final(steps))
  {
    CreatedAlone([], 1, NEW_DISCUSSION);
    CreatedAlone(Alone([], 1, NEW_DISCUSSION), 2, NEW_REPLY);
  }

  lemma BothBeginFrom(steps: seq<Step>)
    requires Feasible(steps) && TwoCreated(Final(steps))
    ensures var begun := steps + [Begin(3, FIRST_EDIT)] + [Begin(4, SECOND_EDIT)];
      Feasible(begun) && TwoBegun(Final(begun))
  {
    Begins(steps, 3, FIRST_EDIT);
    Begins(steps + [Begin(3, FIRST_EDIT)], 4, SECOND_EDIT);
  }

  function FirstImage(): Outcome { NewRow(NEW_DISCUSSION) }

  function SecondImage(): Outcome { NewRow(NEW_REPLY) }

  const SECOND_REVISION := BodyRevision(OnReply("r"), "b", "y", "u", 20)
  const FIRST_REVISION := BodyRevision(OnDiscussion("d"), "b", "x", "u", 10)

  /** Both edits have begun on fresh rows, and nothing is locked or logged. */
  predicate TwoBegun(m: Machine) {
    && m.txns == map[3 := Txn(FIRST_EDIT, Began), 4 := Txn(SECOND_EDIT, Began)] && m.locks == map[]
    && m.db.discussions == map["d" := FirstImage().discussion] && m.db.replies == map["r" := SecondImage().reply]
    && m.db.revisions == Table(map[], 0)
  }

  predicate OneLogged(m: Machine) {
    && m.txns == map[3 := Txn(FIRST_EDIT, Began),
      4 := Txn(SECOND_EDIT, Phase.Logged(SecondImage(), RevisionEntry(0, SECOND_REVISION)))]
    && m.locks == map[OnReply("r") := 4]
    && m.db.discussions == map["d" := FirstImage().discussion] && m.db.replies == map["r" := SecondImage().reply]
    && m.db.revisions == Table(map[], 1)
  }

  predicate TwoLogged(m: Machine) {
    && m.txns == map[3 := Txn(FIRST_EDIT, Phase.Logged(FirstImage(), RevisionEntry(1, FIRST_REVISION))),
                     4 := Txn(SECOND_EDIT, Phase.Logged(SecondImage(), RevisionEntry(0, SECOND_REVISION)))]
    && m.db.discussions == map["d" := FirstImage().discussion] && m.db.replies == map["r" := SecondImage().reply]
    && m.db.revisions == Table(map[], 2)
  }

  lemma SecondLogs(steps: seq<Step>)
    requires Feasible(steps) && TwoBegun(Final(steps))
    ensures Feasible(Locking(steps, 4)) && OneLogged(Final(Locking(steps, 4)))
  {
    LocksAndLogs(steps, 4, SECOND_EDIT);
  }

  lemma FirstLogs(steps: seq<Step>)
    requires Feasible(steps) && OneLogged(Final(steps))
    ensures Feasible(Locking(steps, 3)) && TwoLogged(Final(Locking(steps, 3)))
  {
    LocksAndLogs(steps, 3, FIRST_EDIT);
  }

  lemma FirstCommits(steps: seq<Step>)
    requires Feasible(steps) && TwoLogged(Final(steps))
    ensures Feasible(Finishing(steps, 3))
    ensures var m := Final(Finishing(steps, 3));
      && m.txns == map[4 := Txn(SECOND_EDIT, Phase.Logged(SecondImage(), RevisionEntry(0, SECOND_REVISION)))]
      && "d" in m.db.discussions && m.db.replies == map["r" := SecondImage().reply]
      && m.db.revisions == Table(map[1 := FIRST_REVISION], 2)
  {
    Finishes(steps, 3, FIRST_EDIT, FirstImage(), RevisionEntry(1, FIRST_REVISION));
  }

  lemma SecondCommits(steps: seq<Step>)
    requires Feasible(steps) && Final(steps).txns
        == map[4 := Txn(SECOND_EDIT, Phase.Logged(SecondImage(), RevisionEntry(0, SECOND_REVISION)))]
    requires "d" in Final(steps).db.discussions && Final(steps).db.replies == map["r" := SecondImage().reply]
    requires Final(steps).db.revisions == Table(map[1 := FIRST_REVISION], 2)
    ensures Feasible(Finishing(steps, 4))
    ensures var db := Final(Finishing(steps, 4)).db;
      && "d" in db.discussions && "r" in db.replies && db.replies["r"].discussionID == "d"
      && db.revisions == Table(map[1 := FIRST_REVISION, 0 := SECOND_REVISION], 2)
  {
    Finishes(steps, 4, SECOND_EDIT, SecondImage(), RevisionEntry(0, SECOND_REVISION));
  }

  /** The reply's edit inserts its history row before the discussion's does, and both commit. */
  function Rest(begun: seq<Step>): seq<Step> {
    Finishing(Finishing(Locking(Locking(begun, 4), 3), 3), 4)
  }

  lemma BothCommit(steps: seq<Step>)
    requires Feasible(steps) && TwoBegun(Final(steps))
    ensures var late := Rest(steps);
      && Feasible(late)
      && "d" in Final(late).db.discussions && "r" in Final(late).db.replies
      && Final(late).db.replies["r"].discussionID == "d"
      && 0 in Final(late).db.revisions.rows && 1 in Final(late).db.revisions.rows
  {
    SecondLogs(steps);
    FirstLogs(Locking(steps, 4));
    FirstCommits(Locking(Locking(steps, 4), 3));
    SecondCommits(Finishing(Locking(Locking(steps, 4), 3), 3));
  }

  /** A history row inserted in a prefix of a run is inserted at that step of the run. */
  lemma LoggedInPrefix(late: seq<Step>, steps: seq<Step>, tx: nat, k: nat, r: BodyRevision)
    requires Locking(steps, tx) <= late
    requires tx in Final(Locking(steps, tx)).txns && EntryOf(Final(Locking(steps, tx)).txns[tx]) == RevisionEntry(k, r)
    ensures LogsAt(late, States(late), |steps| + 1, k, r)
  {
    assert late[..|steps| + 2] == Locking(steps, tx);
    assert late[|steps| + 1] == Locking(steps, tx)[|steps| + 1];
  }

  lemma PartsArePrefixes(first: seq<Step>, x: nat, y: nat, z: nat)
    ensures first <= Finishing(Finishing(Locking(first, x), y), z)
    ensures Locking(first, x) <= Finishing(Finishing(Locking(first, x), y), z)
  {
    var both := Locking(first, x);
    var mid := Finishing(both, y);
    assert first <= both && both <= mid && mid <= Finishing(mid, z);
  }

  lemma RestContains(begun: seq<Step>)
    ensures Locking(begun, 4) <= Rest(begun) && Locking(Locking(begun, 4), 3) <= Rest(begun)
  {
    PartsArePrefixes(Locking(begun, 4), 3, 3, 4);
  }

  lemma SecondIsLogged(begun: seq<Step>)
    requires Feasible(begun) && TwoBegun(Final(begun))
    ensures LogsAt(Rest(begun), States(Rest(begun)), |begun| + 1, 0, SECOND_REVISION)
  {
    RestContains(begun);
    SecondIsLoggedNext(begun, Rest(begun));
  }

  lemma SecondIsLoggedNext(steps: seq<Step>, late: seq<Step>)
    requires Feasible(steps) && TwoBegun(Final(steps)) && Locking(steps, 4) <= late
    ensures LogsAt(late, States(late), |steps| + 1, 0, SECOND_REVISION)
  {
    SecondLogs(steps);
    LoggedInPrefix(late, steps, 4, 0, SECOND_REVISION);
  }

  lemma FirstIsLogged(begun: seq<Step>)
    requires Feasible(begun) && TwoBegun(Final(begun))
    ensures LogsAt(Rest(begun), States(Rest(begun)), |Locking(begun, 4)| + 1, 1, FIRST_REVISION)
  {
    SecondLogs(begun);
    RestContains(begun);
    FirstIsLoggedNext(Locking(begun, 4), Rest(begun));
  }

  lemma FirstIsLoggedNext(steps: seq<Step>, late: seq<Step>)
    requires Feasible(steps) && OneLogged(Final(steps)) && Locking(steps, 3) <= late
    ensures LogsAt(late, States(late), |steps| + 1, 1, FIRST_REVISION)
  {
    FirstLogs(steps);
    LoggedInPrefix(late, steps, 3, 1, FIRST_REVISION);
  }

  /** A behaviour whose history no MemStore would answer: the edit stamped 20 is listed before the one stamped 10. */
  lemma LateInsertDisagrees()
    ensures var steps, states := Rest(BothBegun()), States(Rest(BothBegun()));
      && Behaviour(steps, states) && ValidRun(Calls(states[|steps|].done))
      && var st := Replay(Calls(states[|steps|].done));
         !MemStore.IsHistory(st, "d", PgHistory.Revisions(states[|steps|].db, MemStore.Belonging(st, "d")))
  {
    BothBegin();
    LateInsertDisagreesFrom(BothBegun());
  }

  lemma LateInsertDisagreesFrom(begun: seq<Step>)
    requires Feasible(begun) && TwoBegun(Final(begun))
    ensures var steps := Rest(begun);
      && Behaviour(steps, States(steps)) && ValidRun(Calls(States(steps)[|steps|].done))
      && var st := Replay(Calls(States(steps)[|steps|].done));
         !MemStore.IsHistory(st, "d", PgHistory.Revisions(States(steps)[|steps|].db, MemStore.Belonging(st, "d")))
  {
    var steps := Rest(begun);
    var states := States(steps);
    BothCommit(begun);
    FeasibleIsABehaviour(steps);
    SecondIsLogged(begun);
    FirstIsLogged(begun);
    var n := |steps|;
    Linearizable(steps, states, n);
    var st := Replay(Calls(states[n].done));
    var bodies := MemStore.Belonging(st, "d");
    assert OnReply("r") in bodies && OnDiscussion("d") in bodies;
    var i, j := |begun| + 1, |Locking(begun, 4)| + 1;
    LoggedValue(steps, states, i, 0, SECOND_REVISION);
    LoggedValue(steps, states, j, 1, FIRST_REVISION);
    assert PgHistory.CommittedEdit(steps, states, n, i, bodies) && PgHistory.CommittedEdit(steps, states, n, j, bodies);
    assert PgHistory.Stamp(steps, states, i) == 20 && PgHistory.Stamp(steps, states, j) == 10;
    assert !PgHistory.StampsInOrder(steps, states, n, bodies);
    PgHistory.PgHistoryIsMemHistoryExactly(steps, states, n, "d");
  }

  /** The first edit has committed, the second is about to. */
  function FirstDone(begun: seq<Step>): seq<Step> {
    Finishing(Locking(Locking(begun, 4), 3), 3)
  }

  function CombinedHistory(m: Machine): seq<BodyRevision> {
    PgHistory.Revisions(m.db, {OnDiscussion("d"), OnReply("r")})
  }

  lemma OneRevision(m: Machine)
    requires m.db.revisions == Table(map[1 := FIRST_REVISION], 2)
    ensures CombinedHistory(m) == [FIRST_REVISION]
  {
    var bodies := {OnDiscussion("d"), OnReply("r")};
    assert Below(m.db.revisions.rows, 1, PgHistory.InHistory(bodies), Itself()) == [];
  }

  lemma TwoRevisions(m: Machine)
    requires m.db.revisions == Table(map[1 := FIRST_REVISION, 0 := SECOND_REVISION], 2)
    ensures CombinedHistory(m) == [SECOND_REVISION, FIRST_REVISION]
  {
    var bodies := {OnDiscussion("d"), OnReply("r")};
    assert Below(m.db.revisions.rows, 1, PgHistory.InHistory(bodies), Itself()) == [SECOND_REVISION];
  }

  lemma BothHistories(begun: seq<Step>)
    requires Feasible(begun) && TwoBegun(Final(begun))
    ensures Feasible(Rest(begun)) && FirstDone(begun) <= Rest(begun)
    ensures CombinedHistory(Final(FirstDone(begun))) == [FIRST_REVISION]
    ensures CombinedHistory(Final(Rest(begun))) == [SECOND_REVISION, FIRST_REVISION]
  {
    SecondLogs(begun);
    FirstLogs(Locking(begun, 4));
    FirstCommits(Locking(Locking(begun, 4), 3));
    SecondCommits(FirstDone(begun));
    OneRevision(Final(FirstDone(begun)));
    TwoRevisions(Final(Rest(begun)));
  }

  /** A behaviour in which a commit puts its edit before one that was already listed. */
  lemma LateCommitInsertsBefore()
    ensures var steps, n, states := Rest(BothBegun()), |FirstDone(BothBegun())|, States(Rest(BothBegun()));
      && Behaviour(steps, states) && n < |states|
      && CombinedHistory(states[n]) == [FIRST_REVISION]
      && CombinedHistory(states[|steps|]) == [SECOND_REVISION, FIRST_REVISION]
  {
    BothBegin();
    LateCommitInsertsBeforeFrom(BothBegun());
  }

  lemma LateCommitInsertsBeforeFrom(begun: seq<Step>)
    requires Feasible(begun) && TwoBegun(Final(begun))
    ensures var steps, n, states := Rest(begun), |FirstDone(begun)|, States(Rest(begun));
      && Behaviour(steps, states) && n < |states|
      && CombinedHistory(states[n]) == [FIRST_REVISION]
      && CombinedHistory(states[|steps|]) == [SECOND_REVISION, FIRST_REVISION]
  {
    BothHistories(begun);
    FeasibleIsABehaviour(Rest(begun));
    StateAfterPart(FirstDone(begun), Rest(begun));
  }

  lemma StateAfterPart(early: seq<Step>, late: seq<Step>)
    requires early <= late
    ensures |early| < |States(late)| && States(late)[|early|] == Final(early)
  {
    assert late[..|early|] == early;
  }

  // ---------------------------------------------------------------- a creation that begins first and commits last

  const EARLIER := SincePolling.Creation("a", 5)
  const LATER := SincePolling.Creation("b", 9)
  const ROW_A := SincePolling.Row("a", 5)
  const ROW_B := SincePolling.Row("b", 9)

  /** Both creations have begun in the order of their times; the later one has committed. */
  function LaterDone(): seq<Step> {
    Completing([Begin(1, EARLIER)] + [Begin(2, LATER)], 2)
  }

  /** Then the earlier one commits. */
  function BothDone(): seq<Step> {
    Completing(LaterDone(), 1)
  }

  lemma BothCreationsBegin()
    ensures var steps := [Begin(1, EARLIER)] + [Begin(2, LATER)];
      && Feasible(steps) && Final(steps) == START.(txns := map[1 := Txn(EARLIER, Began), 2 := Txn(LATER, Began)])
  {
    assert [] + [Begin(1, EARLIER)] == [Begin(1, EARLIER)];
    Begins([], 1, EARLIER);
    Begins([Begin(1, EARLIER)], 2, LATER);
  }

  lemma LaterCommits()
    ensures Feasible(LaterDone()) && Final(LaterDone()).db.discussions == map["b" := ROW_B]
    ensures Final(LaterDone()).txns == map[1 := Txn(EARLIER, Began)]
  {
    BothCreationsBegin();
    Completes([Begin(1, EARLIER)] + [Begin(2, LATER)], 2, LATER);
  }

  lemma EarlierCommits(steps: seq<Step>)
    requires Feasible(steps) && Final(steps).db.discussions == map["b" := ROW_B]
    requires Final(steps).txns == map[1 := Txn(EARLIER, Began)]
    ensures Feasible(Completing(steps, 1))
        && Final(Completing(steps, 1)).db.discussions == map["b" := ROW_B, "a" := ROW_A]
  {
    Completes(steps, 1, EARLIER);
  }

  lemma CursorOfTheWindow()
    ensures var cur := SincePolling.CursorOf(ROW_B);
      && SincePolling.Largest(map["b" := ROW_B],
        SincePolling.Window(map["b" := ROW_B], SincePolling.EVERYTHING, SincePolling.FirstSync), cur)
      && SincePolling.Watched(ROW_A, SincePolling.EVERYTHING)
      && "a" !in SincePolling.Window(map["b" := ROW_B, "a" := ROW_A], SincePolling.EVERYTHING, SincePolling.After(cur))
  {
    SincePolling.LettersAreOrdered();
    SincePolling.CursorIsWholeMillis(ROW_B);
  }

  /** A client whose first sync sees b moves to b's position; a, begun before and committed after, is in the table
      and matches every filter but is behind that cursor.  The clock never went back. */
  lemma LateCommitIsMissed()
    ensures var steps, n, states := BothDone(), |LaterDone()|, States(BothDone());
      && Behaviour(steps, states)
      && n < |states| && states[n].db.discussions == map["b" := ROW_B]
      && states[|steps|].db.discussions == map["b" := ROW_B, "a" := ROW_A]
    ensures var cur := SincePolling.CursorOf(ROW_B);
      && SincePolling.Largest(map["b" := ROW_B],
        SincePolling.Window(map["b" := ROW_B], SincePolling.EVERYTHING, SincePolling.FirstSync), cur)
      && SincePolling.Watched(ROW_A, SincePolling.EVERYTHING)
      && "a" !in SincePolling.Window(map["b" := ROW_B, "a" := ROW_A], SincePolling.EVERYTHING, SincePolling.After(cur))
  {
    LaterCommits();
    EarlierCommits(LaterDone());
    FeasibleIsABehaviour(BothDone());
    StateAfterPart(LaterDone(), BothDone());
    CursorOfTheWindow();
  }

  // ---------------------------------------------------------------- where the two stores answer differently

  /** A status change with an empty reason, for a discussion that does not exist. */
  const NO_REASON := Call(SetStatus("d", "confirmed", "", "u"), 1, "")

  lemma EarlyRefusalDisagrees()
    ensures var steps := [RefuseEarly(NO_REASON)];
      Behaviour(steps, States(steps)) && States(steps)[1].done == [Done(NO_REASON, Refused(EmptyReason))]
    ensures Apply(EMPTY, NO_REASON).1 == Refused(NotFound)
  {
    OneMoreStep([], RefuseEarly(NO_REASON));
    assert [] + [RefuseEarly(NO_REASON)] == [RefuseEarly(NO_REASON)];
    FeasibleIsABehaviour([RefuseEarly(NO_REASON)]);
  }

  /** After three creations, a list at limit 0: MemStore answers all rows, PGStore one. */
  lemma LimitZeroDisagrees()
    ensures ValidRun(SincePolling.THREE) && Replay(SincePolling.THREE).discussions == SincePolling.THREE_ROWS
    ensures var f := SincePolling.EVERYTHING.(limit := 0);
      && CommentQueries.MemPage(SincePolling.THREE_ROWS, f) == ["c", "b", "a"]
      && CommentQueries.PgPage(SincePolling.THREE_ROWS, f) == ["c"]
  {
    SincePolling.ThreeAreCreated();
    SincePolling.ThreeMatch(SincePolling.EVERYTHING.(limit := 0));
    SincePolling.LettersNewestFirst();
  }
}
