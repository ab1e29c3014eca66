/** Every interleaving of PostgreSQL transactions is a run of the abstract comment store. */
module PgRefinement {
  import opened CommentStore
  import opened PgStore

  // ---------------------------------------------------------------- identity-ordered logs

  lemma {:induction false} BelowSkips<R, V>(rows: map<nat, R>, n: nat, n': nat, sel: R -> bool, val: R -> V)
    requires n <= n' && forall k :: k in rows ==> k < n
    ensures Below(rows, n', sel, val) == Below(rows, n, sel, val)
  {
    if n < n' {
      BelowSkips(rows, n, n' - 1, sel, val);
    }
  }

  lemma {:induction false} BelowIgnores<R, V>(rows: map<nat, R>, k: nat, r: R, n: nat, sel: R -> bool, val: R -> V)
    requires n <= k || (k !in rows && !sel(r))
    ensures Below(rows[k := r], n, sel, val) == Below(rows, n, sel, val)
  {
    if n > 0 {
      BelowIgnores(rows, k, r, n - 1, sel, val);
    }
  }

  lemma {:induction false} BelowAppends<R, V>(rows: map<nat, R>, k: nat, r: R, n: nat, sel: R -> bool, val: R -> V)
    requires k < n && k !in rows && sel(r)
    requires forall j :: j in rows && sel(rows[j]) ==> j < k
    ensures Below(rows[k := r], n, sel, val) == Below(rows, n, sel, val) + [val(r)]
  {
    if n - 1 == k {
      BelowIgnores(rows, k, r, k, sel, val);
    } else {
      BelowAppends(rows, k, r, n - 1, sel, val);
    }
  }

  // ---------------------------------------------------------------- representation

  lemma DrawKeepsLogs(db: Db, e: Entry, st: State)
    requires TablesOK(db) && Represents(db, st)
    ensures TablesOK(Draw(db, e)) && Represents(Draw(db, e), st)
  {
    var db' := Draw(db, e);
    forall t ensures RevisionLog(db', t) == RevisionLog(db, t) {
      BelowSkips(db.revisions.rows, db.revisions.next, db'.revisions.next, OnTarget(t), Itself());
    }
    forall id ensures EventLog(db', id) == EventLog(db, id) {
      BelowSkips(db.statusEvents.rows, db.statusEvents.next, db'.statusEvents.next, OfDiscussion(id), EventIn());
    }
  }

  lemma StoreKeepsLogs(db: Db, row: Outcome)
    ensures forall t :: RevisionLog(Store(db, row), t) == RevisionLog(db, t)
    ensures forall id :: EventLog(Store(db, row), id) == EventLog(db, id)
  {
  }

  /** Committing a pending history row appends it to its own history and to no other. */
  lemma AppendRevision(db: Db, k: nat, revision: BodyRevision)
    requires Pending(db, RevisionEntry(k, revision))
    ensures var db' := Append(db, RevisionEntry(k, revision));
            && RevisionLog(db', revision.target) == RevisionLog(db, revision.target) + [revision]
            && (forall t :: t != revision.target ==> RevisionLog(db', t) == RevisionLog(db, t))
            && (forall id :: EventLog(db', id) == EventLog(db, id))
  {
    var rows, n := db.revisions.rows, db.revisions.next;
    BelowAppends(rows, k, revision, n, OnTarget(revision.target), Itself());
    forall t | t != revision.target
      ensures RevisionLog(Append(db, RevisionEntry(k, revision)), t) == RevisionLog(db, t)
    {
      BelowIgnores(rows, k, revision, n, OnTarget(t), Itself());
    }
  }

  lemma AppendEvent(db: Db, k: nat, row: EventRow)
    requires Pending(db, EventEntry(k, row))
    ensures var db' := Append(db, EventEntry(k, row));
            && EventLog(db', row.discussionID) == EventLog(db, row.discussionID) + [row.event]
            && (forall id :: id != row.discussionID ==> EventLog(db', id) == EventLog(db, id))
            && (forall t :: RevisionLog(db', t) == RevisionLog(db, t))
  {
    var rows, n := db.statusEvents.rows, db.statusEvents.next;
    BelowAppends(rows, k, row, n, OfDiscussion(row.discussionID), EventIn());
    forall id | id != row.discussionID
      ensures EventLog(Append(db, EventEntry(k, row)), id) == EventLog(db, id)
    {
      BelowIgnores(rows, k, row, n, OfDiscussion(id), EventIn());
    }
  }

  // ---------------------------------------------------------------- one commit is one abstract step

  /** The state a transaction is about to commit agrees with the abstract call it runs. */
  ghost predicate ReadyToCommit(db: Db, c: Call, row: Outcome, e: Entry) {
    && Pending(db, e)
    && (c.op.CreateDiscussion? ==> c.id !in db.discussions)
    && (c.op.CreateReply? ==> c.id !in db.replies)
    && (c.op.SetStatus? ==> c.op.reason != "")
    && if LocksARow(c.op) then
         && HasRow(db, TargetOf(c.op)) && CasHolds(RowIn(db, TargetOf(c.op)), c.op)
         && row == Updated(RowIn(db, TargetOf(c.op)), c) && Records(e, RowIn(db, TargetOf(c.op)), c)
       else
         && row == NewRow(c) && RecordsInitial(e, c)
         && (c.op.CreateReply? ==> c.op.replyInput.discussionID in db.discussions)
  }

  lemma CommitStatus(db: Db, st: State, c: Call, row: Outcome, e: Entry)
    requires WellFormed(st) && Represents(db, st) && ReadyToCommit(db, c, row, e) && c.op.SetStatus?
    ensures Represents(Append(Store(db, row), e), Apply(st, c).0) && Apply(st, c).1 == row
  {
    StoreKeepsLogs(db, row);
    AppendEvent(Store(db, row), e.k, e.row);
  }

  lemma CommitEdit(db: Db, st: State, c: Call, row: Outcome, e: Entry)
    requires WellFormed(st) && Represents(db, st) && ReadyToCommit(db, c, row, e) && c.op.EditBody?
    ensures Represents(Append(Store(db, row), e), Apply(st, c).0) && Apply(st, c).1 == row
  {
    match c.op.target {
      case OnDiscussion(id) => CommitDiscussionEdit(db, st, c, row, e, id);
      case OnReply(id) => CommitReplyEdit(db, st, c, row, e, id);
    }
  }

  lemma CommitDiscussionEdit(db: Db, st: State, c: Call, row: Outcome, e: Entry, id: string)
    requires WellFormed(st) && Represents(db, st) && ReadyToCommit(db, c, row, e)
    requires c.op.EditBody? && c.op.target == OnDiscussion(id)
    ensures Represents(Append(Store(db, row), e), Apply(st, c).0) && Apply(st, c).1 == row
  {
    StoreKeepsLogs(db, row);
    AppendRevision(Store(db, row), e.k, e.revision);
    assert EditsOf(st, OnDiscussion(id)) == RevisionLog(db, OnDiscussion(id));
  }

  lemma CommitReplyEdit(db: Db, st: State, c: Call, row: Outcome, e: Entry, id: string)
    requires WellFormed(st) && Represents(db, st) && ReadyToCommit(db, c, row, e)
    requires c.op.EditBody? && c.op.target == OnReply(id)
    ensures Represents(Append(Store(db, row), e), Apply(st, c).0) && Apply(st, c).1 == row
  {
    ReplyEditStores(db, st, c, row, e, id);
    StoreKeepsLogs(db, row);
    AppendRevision(Store(db, row), e.k, e.revision);
    assert EditsOf(st, OnReply(id)) == RevisionLog(db, OnReply(id));
  }

  lemma ReplyEditStores(db: Db, st: State, c: Call, row: Outcome, e: Entry, id: string)
    requires WellFormed(st) && Represents(db, st) && ReadyToCommit(db, c, row, e)
    requires c.op.EditBody? && c.op.target == OnReply(id)
    ensures id in st.replies && e.RevisionEntry?
    ensures e.revision == BodyRevision(OnReply(id), st.replies[id].body, c.op.newBody, c.op.editor, c.now)
    ensures Apply(st, c) == (WithBody(st, OnReply(id), c.op.newBody, c.op.editor, c.now), row)
    ensures Store(db, row).discussions == st.discussions && Store(db, row).replies == Apply(st, c).0.replies
  {
  }

  lemma CommitCreation(db: Db, st: State, c: Call, row: Outcome, e: Entry)
    requires WellFormed(st) && Represents(db, st) && ReadyToCommit(db, c, row, e) && !LocksARow(c.op)
    ensures Represents(Append(Store(db, row), e), Apply(st, c).0) && Apply(st, c).1 == row
  {
    StoreKeepsLogs(db, row);
    if e.EventEntry? {
      CommitFirstEvent(db, st, c, row, e);
    }
  }

  /** A discussion created with a status: its first event starts its log. */
  lemma CommitFirstEvent(db: Db, st: State, c: Call, row: Outcome, e: Entry)
    requires WellFormed(st) && Represents(db, st) && ReadyToCommit(db, c, row, e) && !LocksARow(c.op) && e.EventEntry?
    ensures Represents(Append(Store(db, row), e), Apply(st, c).0) && Apply(st, c).1 == row
  {
    StoreKeepsLogs(db, row);
    AppendEvent(Store(db, row), e.k, e.row);
    assert EventLog(db, c.id) == EventsOf(st, c.id) == [];
  }

  /** Committing is one step of the abstract store, with the abstract store's answer. */
  lemma CommitIsOneAbstractStep(db: Db, st: State, c: Call, row: Outcome, e: Entry)
    requires WellFormed(st) && Represents(db, st) && ReadyToCommit(db, c, row, e)
    ensures Represents(Append(Store(db, row), e), Apply(st, c).0) && Apply(st, c).1 == row
  {
    if c.op.SetStatus? {
      CommitStatus(db, st, c, row, e);
    } else if c.op.EditBody? {
      CommitEdit(db, st, c, row, e);
    } else {
      CommitCreation(db, st, c, row, e);
    }
  }

  // ---------------------------------------------------------------- the run so far

  lemma CallsOfPrefix(done: seq<Done>, d: Done)
    ensures Calls(done + [d]) == Calls(done) + [d.call]
    ensures Init(Calls(done + [d])) == Calls(done) && Last(Calls(done + [d])) == d.call
  {
  }

  /** Answering one more call as the abstract store would keeps the machine linearized. */
  lemma AnswerExtends(db: Db, db': Db, done: seq<Done>, d: Done)
    requires ValidRun(Calls(done)) && Represents(db, Replay(Calls(done))) && AnswersMatch(done)
    requires NewID(Replay(Calls(done)), d.call)
    requires Represents(db', Apply(Replay(Calls(done)), d.call).0)
    requires RightAnswer(d, Apply(Replay(Calls(done)), d.call).1)
    ensures ValidRun(Calls(done + [d])) && Represents(db', Replay(Calls(done + [d]))) && AnswersMatch(done + [d])
  {
    CallsOfPrefix(done, d);
    var done' := done + [d];
    forall i | 0 <= i < |done'|
      ensures ValidRun(Calls(done'[..i])) && RightAnswer(done'[i], Apply(Replay(Calls(done'[..i])), done'[i].call).1)
    {
      assert done'[..i] == if i < |done| then done[..i] else done;
    }
  }

  // ---------------------------------------------------------------- every step keeps the invariant

  /** A step that changes only transaction `tx`, draws identity values and keeps the rows. */
  ghost predicate Local(m: Machine, m': Machine, tx: nat, e: Entry) {
    && m'.db == Draw(m.db, e)
    && m'.done == m.done
    && tx in m'.txns && m'.txns == m.txns[tx := m'.txns[tx]]
    && (forall t :: t in m.locks ==> t in m'.locks && m'.locks[t] == m.locks[t])
  }

  lemma LocalKeepsOthers(m: Machine, m': Machine, tx: nat, e: Entry, y: nat)
    requires Local(m, m', tx, e) && y in m.txns && y != tx && TxnOK(m, y)
    ensures TxnOK(m', y)
  {
  }

  lemma LocalKeepsInv(m: Machine, m': Machine, tx: nat, e: Entry)
    requires Inv(m) && Local(m, m', tx, e)
    requires TxnOK(m', tx)
    requires forall y :: y in m.txns && y != tx ==>
               !Clash(EntryOf(m'.txns[tx]), EntryOf(m.txns[y])) && !Clash(EntryOf(m.txns[y]), EntryOf(m'.txns[tx]))
    requires if tx in m.txns then m'.txns[tx].call == m.txns[tx].call else UnusedID(m, m'.txns[tx].call)
    ensures Inv(m')
  {
    forall y | y in m'.txns ensures TxnOK(m', y) {
      if y != tx { LocalKeepsOthers(m, m', tx, e, y); }
    }
    DrawKeepsLogs(m.db, e, Replay(Calls(m.done)));
  }

  /** A transaction ends without committing. */
  lemma EndKeepsInv(m: Machine, tx: nat)
    requires Inv(m) && tx in m.txns
    ensures Inv(Ended(m, tx))
  {
    var m' := Ended(m, tx);
    forall y | y in m'.txns ensures TxnOK(m', y) {
      assert TxnOK(m, y);
    }
  }

  lemma RefuseKeepsInv(m: Machine, tx: nat, e: Error)
    requires Inv(m) && tx in m.txns
    requires var st := Replay(Calls(m.done));
             Apply(st, m.txns[tx].call) == (st, Refused(e)) && NewID(st, m.txns[tx].call)
    ensures Inv(Refuse(m, tx, e))
  {
    EndKeepsInv(m, tx);
    AnswerExtends(m.db, m.db, m.done, Done(m.txns[tx].call, Refused(e)));
    var m', ended := Refuse(m, tx, e), Ended(m, tx);
    forall y | y in m'.txns ensures TxnOK(m', y) {
      assert TxnOK(ended, y);
    }
  }

  /** Storing a row leaves the rows of other targets alone. */
  lemma StoreKeepsOtherRows(db: Db, row: Outcome, e: Entry, t: Target)
    requires HasRow(db, t)
    requires row.DiscussionRow? ==> t != OnDiscussion(row.discussion.discussionID)
    requires row.ReplyRow? ==> t != OnReply(row.reply.replyID)
    ensures HasRow(Append(Store(db, row), e), t) && RowIn(Append(Store(db, row), e), t) == RowIn(db, t)
  {
  }

  /** While one transaction holds a row locked, another's commit does not touch that row. */
  lemma CommitKeepsLockedRow(m: Machine, tx: nat, y: nat)
    requires Inv(m) && Enabled(m, Step.Commit(tx)) && y in m.txns && y != tx
    requires LocksARow(m.txns[y].call.op) && !m.txns[y].phase.Began?
    ensures var m', t := Do(m, Step.Commit(tx)), TargetOf(m.txns[y].call.op);
            Holds(m', y, t) && HasRow(m.db, t) && HasRow(m'.db, t) && RowIn(m'.db, t) == RowIn(m.db, t)
  {
    assert TxnOK(m, tx) && TxnOK(m, y);
    assert WellFormed(Replay(Calls(m.done)));
    StoreKeepsOtherRows(m.db, m.txns[tx].phase.row, m.txns[tx].phase.entry, TargetOf(m.txns[y].call.op));
  }

  /** Another's commit adds no later row to the history a pending entry belongs to. */
  lemma CommitKeepsPending(m: Machine, tx: nat, y: nat)
    requires Inv(m) && Enabled(m, Step.Commit(tx)) && y in m.txns && y != tx
    ensures Pending(Do(m, Step.Commit(tx)).db, EntryOf(m.txns[y]))
  {
    assert TxnOK(m, tx) && TxnOK(m, y);
    assert !Clash(EntryOf(m.txns[tx]), EntryOf(m.txns[y]));
    EntriesOfDifferentBodies(m, tx, y);
    AppendKeepsPending(m.db, m.txns[tx].phase.row, EntryOf(m.txns[tx]), EntryOf(m.txns[y]));
  }

  predicate SameHistory(a: Entry, b: Entry) {
    || (a.RevisionEntry? && b.RevisionEntry? && a.revision.target == b.revision.target)
    || (a.EventEntry? && b.EventEntry? && a.row.discussionID == b.row.discussionID)
  }

  lemma EntriesOfDifferentBodies(m: Machine, x: nat, y: nat)
    requires Inv(m) && x in m.txns && y in m.txns && x != y && TxnOK(m, x) && TxnOK(m, y)
    ensures !SameHistory(EntryOf(m.txns[x]), EntryOf(m.txns[y]))
  {
    EntryIsOf(m, x);
    EntryIsOf(m, y);
  }

  /** A pending entry belongs to the row its transaction has locked, or to the discussion it creates. */
  lemma EntryIsOf(m: Machine, x: nat)
    requires x in m.txns && TxnOK(m, x)
    ensures var e, c := EntryOf(m.txns[x]), m.txns[x].call;
      && (e.RevisionEntry? ==> LocksARow(c.op) && e.revision.target == TargetOf(c.op) && Holds(m, x, TargetOf(c.op)))
      && (e.EventEntry? ==>
            if LocksARow(c.op) then TargetOf(c.op) == OnDiscussion(e.row.discussionID) && Holds(m, x, TargetOf(c.op))
                                    && e.row.discussionID in m.db.discussions
            else c.op.CreateDiscussion? && c.id == e.row.discussionID && c.id !in m.db.discussions)
  {
  }

  lemma AppendKeepsPending(db: Db, row: Outcome, e: Entry, f: Entry)
    requires Pending(db, f) && !Clash(e, f) && !Clash(f, e) && !SameHistory(e, f)
    ensures Pending(Append(Store(db, row), e), f)
  {
  }

  lemma CommitKeepsOthers(m: Machine, tx: nat, y: nat)
    requires Inv(m) && Enabled(m, Step.Commit(tx)) && y in m.txns && y != tx
    ensures var m' := Do(m, Step.Commit(tx)); y in m'.txns && TxnOK(m', y)
  {
    var m' := Do(m, Step.Commit(tx));
    CommitKeepsPending(m, tx, y);
    CommitKeepsFreshIDs(m, tx, y);
    if LocksARow(m.txns[y].call.op) && !m.txns[y].phase.Began? {
      CommitKeepsLockedRow(m, tx, y);
    }
    StaysOK(m, m', y);
  }

  /** A commit stores no row under an id another transaction is creating, and loses no discussion. */
  lemma CommitKeepsFreshIDs(m: Machine, tx: nat, y: nat)
    requires Inv(m) && Enabled(m, Step.Commit(tx)) && y in m.txns && y != tx
    ensures var m', c := Do(m, Step.Commit(tx)), m.txns[y].call;
      && y in m'.txns && m'.txns[y] == m.txns[y]
      && (c.op.CreateDiscussion? ==> c.id !in m'.db.discussions) && (c.op.CreateReply? ==> c.id !in m'.db.replies)
      && m.db.discussions.Keys <= m'.db.discussions.Keys
  {
    assert TxnOK(m, tx) && TxnOK(m, y);
    assert WellFormedRows(Replay(Calls(m.done)));
  }

  lemma StaysOK(m: Machine, m': Machine, y: nat)
    requires y in m.txns && TxnOK(m, y) && y in m'.txns && m'.txns[y] == m.txns[y] && Pending(m'.db, EntryOf(m.txns[y]))
    requires m.txns[y].call.op.CreateDiscussion? ==> m.txns[y].call.id !in m'.db.discussions
    requires m.txns[y].call.op.CreateReply? ==> m.txns[y].call.id !in m'.db.replies
    requires m.db.discussions.Keys <= m'.db.discussions.Keys
    requires LocksARow(m.txns[y].call.op) && !m.txns[y].phase.Began? ==>
               var t := TargetOf(m.txns[y].call.op);
               Holds(m', y, t) && HasRow(m.db, t) && HasRow(m'.db, t) && RowIn(m'.db, t) == RowIn(m.db, t)
    ensures TxnOK(m', y)
  {
  }

  lemma CommitLinearizes(m: Machine, tx: nat)
    requires Inv(m) && Enabled(m, Step.Commit(tx))
    ensures Linearized(Do(m, Step.Commit(tx)))
  {
    assert TxnOK(m, tx);
    var x := m.txns[tx];
    CommitIsOneAbstractStep(m.db, Replay(Calls(m.done)), x.call, x.phase.row, x.phase.entry);
    AnswerExtends(m.db, Do(m, Step.Commit(tx)).db, m.done, Done(x.call, x.phase.result));
  }

  lemma CommitKeepsTables(m: Machine, tx: nat)
    requires Inv(m) && Enabled(m, Step.Commit(tx))
    ensures TablesOK(Do(m, Step.Commit(tx)).db) && Apart(Do(m, Step.Commit(tx)))
  {
    assert TxnOK(m, tx);
    AppendKeepsTables(m.db, m.txns[tx].phase.row, EntryOf(m.txns[tx]));
  }

  lemma AppendKeepsTables(db: Db, row: Outcome, e: Entry)
    requires TablesOK(db) && Pending(db, e)
    ensures TablesOK(Append(Store(db, row), e))
  {
  }

  lemma CommitKeepsInv(m: Machine, tx: nat)
    requires Inv(m) && Enabled(m, Step.Commit(tx))
    ensures Inv(Do(m, Step.Commit(tx)))
  {
    var m' := Do(m, Step.Commit(tx));
    CommitLinearizes(m, tx);
    CommitKeepsTables(m, tx);
    forall y | y in m'.txns ensures TxnOK(m', y) {
      CommitKeepsOthers(m, tx, y);
    }
  }

  /** A step that draws nothing: the entry of the transaction, if any, is the one it had. */
  lemma DrawlessKeepsInv(m: Machine, m': Machine, tx: nat)
    requires Inv(m) && tx in m.txns && Local(m, m', tx, NoEntry) && TxnOK(m', tx)
    requires m'.txns[tx].call == m.txns[tx].call && EntryOf(m'.txns[tx]) == EntryOf(m.txns[tx])
    ensures Inv(m')
  {
    LocalKeepsInv(m, m', tx, NoEntry);
  }

  /** A freshly drawn identity value clashes with no pending one. */
  lemma DrawnIsApart(m: Machine, e: Entry, y: nat)
    requires Inv(m) && y in m.txns
    requires e.RevisionEntry? ==> e.k == m.db.revisions.next
    requires e.EventEntry? ==> e.k == m.db.statusEvents.next
    ensures !Clash(e, EntryOf(m.txns[y])) && !Clash(EntryOf(m.txns[y]), e)
  {
    assert TxnOK(m, y) && Pending(m.db, EntryOf(m.txns[y]));
  }

  lemma DrawingKeepsInv(m: Machine, m': Machine, tx: nat, e: Entry)
    requires Inv(m) && tx in m.txns && Local(m, m', tx, e) && TxnOK(m', tx)
    requires m'.txns[tx].call == m.txns[tx].call && EntryOf(m'.txns[tx]) == e
    requires e.RevisionEntry? ==> e.k == m.db.revisions.next
    requires e.EventEntry? ==> e.k == m.db.statusEvents.next
    ensures Inv(m')
  {
    forall y | y in m.txns && y != tx ensures !Clash(e, EntryOf(m.txns[y])) && !Clash(EntryOf(m.txns[y]), e) {
      DrawnIsApart(m, e, y);
    }
    LocalKeepsInv(m, m', tx, e);
  }

  /** The abstract store refuses a call on a missing row, or with another revision, the same way. */
  lemma AbstractRefuses(db: Db, st: State, c: Call)
    requires Represents(db, st) && LocksARow(c.op) && (c.op.SetStatus? ==> c.op.reason != "")
    ensures !HasRow(db, TargetOf(c.op)) ==> Apply(st, c) == (st, Refused(NotFound))
    ensures HasRow(db, TargetOf(c.op)) && !CasHolds(RowIn(db, TargetOf(c.op)), c.op) ==>
              Apply(st, c) == (st, Refused(RevisionConflict))
  {
  }

  lemma LockIsLocal(m: Machine, tx: nat)
    requires Inv(m) && Enabled(m, LockRow(tx)) && HasRow(m.db, TargetOf(m.txns[tx].call.op))
    requires CasHolds(RowIn(m.db, TargetOf(m.txns[tx].call.op)), m.txns[tx].call.op)
    ensures var m' := Do(m, LockRow(tx));
      Local(m, m', tx, NoEntry) && TxnOK(m', tx) && m'.txns[tx].call == m.txns[tx].call
        && EntryOf(m'.txns[tx]) == NoEntry
  {
    assert TxnOK(m, tx);
  }

  lemma LockKeepsInv(m: Machine, tx: nat)
    requires Inv(m) && Enabled(m, LockRow(tx))
    ensures Inv(Do(m, LockRow(tx)))
  {
    assert TxnOK(m, tx);
    var x := m.txns[tx];
    var t := TargetOf(x.call.op);
    AbstractRefuses(m.db, Replay(Calls(m.done)), x.call);
    if !HasRow(m.db, t) {
      RefuseKeepsInv(m, tx, NotFound);
    } else if !CasHolds(RowIn(m.db, t), x.call.op) {
      RefuseKeepsInv(m, tx, RevisionConflict);
    } else {
      LockIsLocal(m, tx);
      DrawlessKeepsInv(m, Do(m, LockRow(tx)), tx);
    }
  }

  lemma FreshIsPending(db: Db, e: Entry)
    requires TablesOK(db)
    requires e.RevisionEntry? ==> e.k == db.revisions.next
    requires e.EventEntry? ==> e.k == db.statusEvents.next
    ensures Pending(Draw(db, e), e)
  {
  }

  /** The history row goes with the image read under the lock. */
  lemma HistoryEntryRecords(db: Db, image: Outcome, c: Call)
    requires LocksARow(c.op) && HasRow(db, TargetOf(c.op)) && image == RowIn(db, TargetOf(c.op))
    ensures var e := HistoryEntry(db, image, c);
      && Records(e, image, c)
      && (e.RevisionEntry? ==> e.k == db.revisions.next) && (e.EventEntry? ==> e.k == db.statusEvents.next)
  {
  }

  lemma InsertHistoryKeepsInv(m: Machine, tx: nat)
    requires Inv(m) && Enabled(m, InsertHistory(tx))
    ensures Inv(Do(m, InsertHistory(tx)))
  {
    assert TxnOK(m, tx);
    var x := m.txns[tx];
    var e := HistoryEntry(m.db, x.phase.image, x.call);
    HistoryEntryRecords(m.db, x.phase.image, x.call);
    FreshIsPending(m.db, e);
    LogIsLocal(m, tx, e);
    DrawingKeepsInv(m, Do(m, InsertHistory(tx)), tx, e);
  }

  lemma LogIsLocal(m: Machine, tx: nat, e: Entry)
    requires Enabled(m, InsertHistory(tx)) && TxnOK(m, tx)
    requires e == HistoryEntry(m.db, m.txns[tx].phase.image, m.txns[tx].call)
    requires Pending(Draw(m.db, e), e) && Records(e, m.txns[tx].phase.image, m.txns[tx].call)
    ensures var m' := Do(m, InsertHistory(tx));
      Local(m, m', tx, e) && TxnOK(m', tx) && m'.txns[tx].call == m.txns[tx].call && EntryOf(m'.txns[tx]) == e
  {
  }

  lemma InsertRowKeepsInv(m: Machine, tx: nat)
    requires Inv(m) && Enabled(m, InsertRow(tx))
    ensures Inv(Do(m, InsertRow(tx)))
  {
    assert TxnOK(m, tx);
    var x := m.txns[tx];
    if x.call.op.CreateReply? && x.call.op.replyInput.discussionID !in m.db.discussions {
      RefuseKeepsInv(m, tx, NotFound);
    } else {
      var e := InitialEntry(m.db, x.call);
      FreshIsPending(m.db, e);
      InsertIsLocal(m, tx, e);
      DrawingKeepsInv(m, Do(m, InsertRow(tx)), tx, e);
    }
  }

  lemma InsertIsLocal(m: Machine, tx: nat, e: Entry)
    requires Enabled(m, InsertRow(tx)) && TxnOK(m, tx) && e == InitialEntry(m.db, m.txns[tx].call)
    requires m.txns[tx].call.op.CreateReply? ==> m.txns[tx].call.op.replyInput.discussionID in m.db.discussions
    requires Pending(Draw(m.db, e), e)
    ensures var m' := Do(m, InsertRow(tx));
      Local(m, m', tx, e) && TxnOK(m', tx) && m'.txns[tx].call == m.txns[tx].call && EntryOf(m'.txns[tx]) == e
  {
  }

  lemma BeginKeepsInv(m: Machine, s: Step)
    requires Inv(m) && Enabled(m, s) && s.Begin?
    ensures Inv(Do(m, s))
  {
    BeginIsLocal(m, s);
    LocalKeepsInv(m, Do(m, s), s.tx, NoEntry);
  }

  lemma BeginIsLocal(m: Machine, s: Step)
    requires Enabled(m, s) && s.Begin?
    ensures var m' := Do(m, s);
      Local(m, m', s.tx, NoEntry) && TxnOK(m', s.tx) && UnusedID(m, m'.txns[s.tx].call)
        && EntryOf(m'.txns[s.tx]) == NoEntry
  {
  }

  lemma UpdateKeepsInv(m: Machine, s: Step)
    requires Inv(m) && Enabled(m, s) && s.UpdateRow?
    ensures Inv(Do(m, s))
  {
    UpdateIsLocal(m, s);
    DrawlessKeepsInv(m, Do(m, s), s.tx);
  }

  lemma UpdateIsLocal(m: Machine, s: Step)
    requires Enabled(m, s) && s.UpdateRow? && TxnOK(m, s.tx)
    ensures var m' := Do(m, s);
      && Local(m, m', s.tx, NoEntry) && TxnOK(m', s.tx)
      && m'.txns[s.tx].call == m.txns[s.tx].call && EntryOf(m'.txns[s.tx]) == EntryOf(m.txns[s.tx])
  {
  }

  lemma RereadKeepsInv(m: Machine, s: Step)
    requires Inv(m) && Enabled(m, s) && s.Reread?
    ensures Inv(Do(m, s))
  {
    RereadIsLocal(m, s);
    DrawlessKeepsInv(m, Do(m, s), s.tx);
  }

  lemma RereadIsLocal(m: Machine, s: Step)
    requires Enabled(m, s) && s.Reread? && TxnOK(m, s.tx)
    ensures var m' := Do(m, s);
      && Local(m, m', s.tx, NoEntry) && TxnOK(m', s.tx)
      && m'.txns[s.tx].call == m.txns[s.tx].call && EntryOf(m'.txns[s.tx]) == EntryOf(m.txns[s.tx])
  {
  }

  /** An early refusal changes no row; the abstract store refuses the call too. */
  lemma RefuseEarlyKeepsInv(m: Machine, c: Call)
    requires Inv(m) && EmptyReasonCall(c)
    ensures Inv(Do(m, RefuseEarly(c)))
  {
    var m' := Do(m, RefuseEarly(c));
    AnswerExtends(m.db, m.db, m.done, Done(c, Refused(EmptyReason)));
    forall y | y in m'.txns ensures TxnOK(m', y) {
      assert TxnOK(m, y);
    }
  }

  lemma StepKeepsInv(m: Machine, s: Step)
    requires Inv(m) && Enabled(m, s)
    ensures Inv(Do(m, s))
  {
    match s
    case RefuseEarly(c) => RefuseEarlyKeepsInv(m, c);
    case LockRow(tx) => LockKeepsInv(m, tx);
    case InsertHistory(tx) => InsertHistoryKeepsInv(m, tx);
    case InsertRow(tx) => InsertRowKeepsInv(m, tx);
    case Commit(tx) => CommitKeepsInv(m, tx);
    case Abort(tx) => EndKeepsInv(m, tx);
    case Begin(_, _) => BeginKeepsInv(m, s);
    case UpdateRow(_) => UpdateKeepsInv(m, s);
    case Reread(_) => RereadKeepsInv(m, s);
  }

  // ---------------------------------------------------------------- runs

  ghost predicate Behaviour(steps: seq<Step>, states: seq<Machine>) {
    && |states| == |steps| + 1
    && states[0] == START
    && forall i :: 0 <= i < |steps| ==> Enabled(states[i], steps[i]) && states[i + 1] == Do(states[i], steps[i])
  }

  lemma {:induction false} InvAlways(steps: seq<Step>, states: seq<Machine>, n: nat)
    requires Behaviour(steps, states) && n < |states|
    ensures Inv(states[n])
  {
    if n == 0 {
      assert Calls([]) == [];
    } else {
      InvAlways(steps, states, n - 1);
      StepKeepsInv(states[n - 1], steps[n - 1]);
    }
  }

  /** Linearizability: after any interleaving the committed tables are exactly what the abstract
      store holds after the answered calls, taken in the order they were answered, and every answer
      is the abstract store's. */
  lemma Linearizable(steps: seq<Step>, states: seq<Machine>, n: nat)
    requires Behaviour(steps, states) && n < |states|
    ensures ValidRun(Calls(states[n].done))
    ensures Represents(states[n].db, Replay(Calls(states[n].done)))
    ensures AnswersMatch(states[n].done)
  {
    InvAlways(steps, states, n);
  }

  /** In production as in the abstract store: whatever the clients interleave, a body's accepted edits
      used revisions 1, 2, 3, ..., each committed one history row, and those rows replay to the body. */
  lemma CommittedEditsAreGapless(steps: seq<Step>, states: seq<Machine>, n: nat, t: Target)
    requires Behaviour(steps, states) && n < |states| && HasRow(states[n].db, t)
    ensures ValidRun(Calls(states[n].done))
    ensures var calls, db := Calls(states[n].done), states[n].db;
            && Exists(Replay(calls), t)
            && Gapless(AcceptedEdits(calls, t), RevisionLog(db, t), OriginalBody(calls, t), t,
                       RevisionOf(Replay(calls), t), BodyOf(Replay(calls), t))
  {
    Linearizable(steps, states, n);
    EditsAreGapless(Calls(states[n].done), t);
    var db, st := states[n].db, Replay(Calls(states[n].done));
    assert Represents(db, st);
    assert EditsOf(st, t) == RevisionLog(db, t);
  }

  /** A lock wait never lets a stale compare-and-swap through: while one transaction holds a row, no
      other transaction has read it for update. */
  lemma OneHolderPerRow(steps: seq<Step>, states: seq<Machine>, n: nat, x: nat, y: nat)
    requires Behaviour(steps, states) && n < |states|
    requires x in states[n].txns && y in states[n].txns && x != y
    requires LocksARow(states[n].txns[x].call.op) && LocksARow(states[n].txns[y].call.op)
    requires TargetOf(states[n].txns[x].call.op) == TargetOf(states[n].txns[y].call.op)
    ensures states[n].txns[x].phase.Began? || states[n].txns[y].phase.Began?
  {
    InvAlways(steps, states, n);
    assert TxnOK(states[n], x) && TxnOK(states[n], y);
  }

  // ---------------------------------------------------------------- the two stores side by side

  /** In every run an empty reason is answered as such; MemStore, which looks for the discussion first, gives the
      same answer exactly when the discussion exists at that point. */
  lemma EmptyReasonAnswersAgree(steps: seq<Step>, states: seq<Machine>, n: nat, i: nat)
    requires Behaviour(steps, states) && n < |states| && i < |states[n].done|
    requires EmptyReasonCall(states[n].done[i].call)
    ensures var d := states[n].done[i];
      && d.outcome == Refused(EmptyReason)
      && ValidRun(Calls(states[n].done[..i]))
      && var before := Replay(Calls(states[n].done[..i]));
         && Apply(before, d.call).0 == before
         && (Apply(before, d.call).1 == d.outcome <==> d.call.op.discussionID in before.discussions)
  {
    Linearizable(steps, states, n);
    assert RightAnswer(states[n].done[i], Apply(Replay(Calls(states[n].done[..i])), states[n].done[i].call).1);
  }
}
