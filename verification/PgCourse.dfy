/** The ordinary course of a transaction from any state of the machine, what stops it, what the tables accept, and who
    has a row locked. */
module PgCourse {
  import opened CommentStore
  import opened CommentRows
  import opened PgStore
  import opened PgRefinement

  // ---------------------------------------------------------------- what the tables accept

  predicate AcceptedInput(input: CreateDiscussionInput) {
    && input.pageIdx >= 0 && input.blockIndex >= 1 && (input.scope == "public" || input.scope == "lean")
    && (input.status == "" || AcceptedStatus(input.status))
  }

  predicate AcceptedStatus(status: string) {
    status == "pending" || status == "confirmed" || status == "retracted"
  }

  predicate AcceptedRow(d: Discussion) {
    && d.pageIdx >= 0 && d.blockIndex >= 1 && (d.scope == "public" || d.scope == "lean")
    && (d.status == "" || AcceptedStatus(d.status))
  }

  ghost predicate AcceptedRows(m: Machine) {
    && (forall id :: id in m.db.discussions ==> AcceptedRow(m.db.discussions[id]))
    && forall tx :: tx in m.txns ==> AcceptedTxn(m.txns[tx])
  }

  /** What a transaction has past its checks. */
  predicate AcceptedTxn(x: Txn) {
    && (x.phase.Logged? && x.call.op.SetStatus? ==> AcceptedStatus(x.call.op.to))
    && (x.phase.Written? && x.phase.row.DiscussionRow? ==> AcceptedRow(x.phase.row.discussion))
    && (x.phase.Answered? && x.phase.row.DiscussionRow? ==> AcceptedRow(x.phase.row.discussion))
  }

  lemma StepKeepsAcceptedTxns(m: Machine, s: Step)
    requires Enabled(m, s) && AcceptedRows(m)
    ensures forall tx :: tx in Do(m, s).txns ==> AcceptedTxn(Do(m, s).txns[tx])
  {
    var m' := Do(m, s);
    forall tx | tx in m'.txns ensures AcceptedTxn(m'.txns[tx]) {
      if tx in m.txns {
        assert AcceptedTxn(m.txns[tx]);
      }
    }
  }

  lemma StepKeepsAcceptedRows(m: Machine, s: Step)
    requires Enabled(m, s) && AcceptedRows(m)
    ensures AcceptedRows(Do(m, s))
  {
    StepKeepsAcceptedTxns(m, s);
    if s.Commit? {
      assert AcceptedTxn(m.txns[s.tx]);
    }
  }

  /** Whatever is sent, only rows the tables accept are ever committed. */
  lemma {:induction false} CommittedRowsAreAccepted(steps: seq<Step>, states: seq<Machine>, n: nat)
    requires Behaviour(steps, states) && n < |states|
    ensures AcceptedRows(states[n])
  {
    if n > 0 {
      CommittedRowsAreAccepted(steps, states, n - 1);
      StepKeepsAcceptedRows(states[n - 1], steps[n - 1]);
    }
  }

  // ---------------------------------------------------------------- locks

  /** The transaction has read its row under the lock and has not ended. */
  predicate PastItsLock(m: Machine, tx: nat, t: Target) {
    && tx in m.txns && !m.txns[tx].phase.Began? && LocksARow(m.txns[tx].call.op) && TargetOf(m.txns[tx].call.op) == t
  }

  predicate AboutToLock(m: Machine, tx: nat, t: Target) {
    && tx in m.txns && m.txns[tx].phase.Began? && LocksARow(m.txns[tx].call.op) && TargetOf(m.txns[tx].call.op) == t
    && HasRow(m.db, t)
  }

  ghost predicate LocksAreLive(m: Machine) {
    forall t :: t in m.locks ==> PastItsLock(m, m.locks[t], t)
  }

  lemma OthersStayPastTheirLock(m: Machine, s: Step, other: nat, t: Target)
    requires Enabled(m, s) && PastItsLock(m, other, t) && !(s.Commit? && s.tx == other) && !(s.Abort? && s.tx == other)
    ensures PastItsLock(Do(m, s), other, t)
  {
  }

  lemma LocksOfAStep(m: Machine, s: Step, t: Target)
    requires Enabled(m, s) && t in Do(m, s).locks
    ensures || (t in m.locks && Do(m, s).locks[t] == m.locks[t] && !(s.Commit? && s.tx == m.locks[t])
                && !(s.Abort? && s.tx == m.locks[t]))
            || (s.LockRow? && Do(m, s).locks[t] == s.tx && PastItsLock(Do(m, s), s.tx, t))
  {
  }

  lemma StepKeepsLocksLive(m: Machine, s: Step)
    requires Enabled(m, s) && LocksAreLive(m)
    ensures LocksAreLive(Do(m, s))
  {
    forall t | t in Do(m, s).locks ensures PastItsLock(Do(m, s), Do(m, s).locks[t], t) {
      LocksOfAStep(m, s, t);
      if t in m.locks && Do(m, s).locks[t] == m.locks[t] && !(s.LockRow? && s.tx == m.locks[t]) {
        OthersStayPastTheirLock(m, s, m.locks[t], t);
      }
    }
  }

  lemma {:induction false} LocksAlwaysLive(steps: seq<Step>, states: seq<Machine>, n: nat)
    requires Behaviour(steps, states) && n < |states|
    ensures LocksAreLive(states[n])
  {
    if n > 0 {
      LocksAlwaysLive(steps, states, n - 1);
      StepKeepsLocksLive(states[n - 1], steps[n - 1]);
    }
  }

  /** In every run a row is locked by a transaction exactly from its locking read to its end; an ended one, committed,
      refused or rolled back, has no lock, and a locking read of an existing row waits exactly while another
      transaction is past its own. */
  lemma LockedFromReadToEnd(steps: seq<Step>, states: seq<Machine>, n: nat, tx: nat, t: Target)
    requires Behaviour(steps, states) && n < |states|
    ensures Holds(states[n], tx, t) <==> PastItsLock(states[n], tx, t)
    ensures AboutToLock(states[n], tx, t) ==>
        (Enabled(states[n], LockRow(tx))
         <==> forall other :: other in states[n].txns ==> !PastItsLock(states[n], other, t))
  {
    InvAlways(steps, states, n);
    LocksAlwaysLive(steps, states, n);
    var m := states[n];
    forall other | PastItsLock(m, other, t) ensures Holds(m, other, t) {
      assert TxnOK(m, other);
    }
  }

  // ---------------------------------------------------------------- steps in a row

  predicate FreshTransaction(m: Machine, tx: nat) {
    tx !in m.txns && forall t :: t in m.locks ==> m.locks[t] != tx
  }

  /** Each step is enabled after the ones before it, and they lead from m to m'. */
  ghost predicate Leads(m: Machine, steps: seq<Step>, m': Machine)
    decreases |steps|
  {
    if steps == [] then m' == m
    else Enabled(m, steps[0]) && Leads(Do(m, steps[0]), steps[1..], m')
  }

  lemma LeadsTwo(m: Machine, a: Step, b: Step)
    requires Enabled(m, a) && Enabled(Do(m, a), b)
    ensures Leads(m, [a, b], Do(Do(m, a), b))
  {
    assert [a, b][1..] == [b] && [b][1..] == [];
    assert Leads(Do(m, a), [b], Do(Do(m, a), b));
  }

  lemma {:induction false} LeadsOn(m: Machine, first: seq<Step>, m1: Machine, more: seq<Step>, m2: Machine)
    requires Leads(m, first, m1) && Leads(m1, more, m2)
    ensures Leads(m, first + more, m2)
    decreases |first|
  {
    if first == [] {
      assert first + more == more;
    } else {
      LeadsOn(Do(m, first[0]), first[1..], m1, more, m2);
      assert (first + more)[0] == first[0] && (first + more)[1..] == first[1..] + more;
    }
  }

  /** The machine without this transaction, its row and history row stored and its answer given. */
  function Completed(m: Machine, tx: nat, c: Call, row: Outcome, e: Entry, result: Outcome): Machine
    requires tx in m.txns
  {
    Machine(Append(Store(m.db, row), e), m.txns - {tx}, map t | t in m.locks && m.locks[t] != tx :: m.locks[t],
            m.done + [Done(c, result)])
  }

  /** A transaction that has written its row reads it again and commits. */
  lemma WrittenCommits(m: Machine, tx: nat, c: Call, row: Outcome, e: Entry)
    requires tx in m.txns && m.txns[tx] == Txn(c, Written(row, e))
    ensures Leads(m, [Reread(tx), Commit(tx)], Completed(m, tx, c, row, e, Projection(m.db, row)))
  {
    var m1 := Do(m, Reread(tx));
    var result := Projection(m.db, row);
    assert m1 == m.(txns := m.txns[tx := Txn(c, Answered(row, e, result))]);
    assert m1.txns - {tx} == m.txns - {tx};
    assert Do(m1, Commit(tx)) == Completed(m, tx, c, row, e, result);
    LeadsTwo(m, Reread(tx), Commit(tx));
  }

  // ---------------------------------------------------------------- creations

  predicate NewlyCreated(d: Discussion, c: Call)
    requires c.op.CreateDiscussion?
  {
    && Carries(d, c.op.discussionInput, c.id, c.now) && d.revision == 1 && d.updatedAt == c.now
    && d.status == c.op.discussionInput.status && d.body == c.op.discussionInput.body
  }

  /** The status events before and after: one more exactly when the input has a status, under the next identity
      value. */
  predicate FirstEventOnly(before: Db, after: Db, c: Call)
    requires c.op.CreateDiscussion?
  {
    var input, k := c.op.discussionInput, before.statusEvents.next;
    if input.status == "" then after.statusEvents == before.statusEvents
    else
      && after.statusEvents.next == k + 1 && k in after.statusEvents.rows
      && after.statusEvents.rows == before.statusEvents.rows[k := after.statusEvents.rows[k]]
      && after.statusEvents.rows[k].discussionID == c.id
      && var e := after.statusEvents.rows[k].event;
         && e.from == "" && e.to == input.status && e.actor == input.createdBy && e.at == c.now
         && e.reason == if input.initialReason == "" then "initial status" else input.initialReason
  }

  lemma DiscussionIsInserted(m: Machine, tx: nat, c: Call)
    requires FreshTransaction(m, tx) && c.op.CreateDiscussion? && AcceptedInput(c.op.discussionInput)
    requires c.id !in m.db.discussions
    requires forall x :: x in m.txns && m.txns[x].call.op.CreateDiscussion? ==> m.txns[x].call.id != c.id
    ensures var e := InitialEntry(m.db, Normal(c));
      Leads(m, [Begin(tx, c), InsertRow(tx)],
            m.(db := Draw(m.db, e), txns := m.txns[tx := Txn(Normal(c), Written(NewRow(Normal(c)), e))]))
  {
    var m1 := Do(m, Begin(tx, c));
    assert m1 == m.(txns := m.txns[tx := Txn(Normal(c), Began)]);
    var e := InitialEntry(m.db, Normal(c));
    var x := Txn(Normal(c), Written(NewRow(Normal(c)), e));
    assert m1.txns[tx := x] == m.txns[tx := x];
    LeadsTwo(m, Begin(tx, c), InsertRow(tx));
  }

  lemma EndsAsItBegan(m: Machine, tx: nat, x: Txn)
    requires FreshTransaction(m, tx)
    ensures m.txns[tx := x] - {tx} == m.txns
    ensures (map t | t in m.locks && m.locks[t] != tx :: m.locks[t]) == m.locks
  {
  }

  /** From any state a creation with an unused id and values the tables accept can run to its commit, whatever other
      transactions hold: one row is added, carrying its input, with one first event if there is a status, and the
      answer is that row. */
  lemma DiscussionCourse(m: Machine, tx: nat, c: Call) returns (m': Machine, answer: Discussion)
    requires FreshTransaction(m, tx) && c.op.CreateDiscussion? && AcceptedInput(c.op.discussionInput)
    requires c.id !in m.db.discussions
    requires forall x :: x in m.txns && m.txns[x].call.op.CreateDiscussion? ==> m.txns[x].call.id != c.id
    ensures Leads(m, [Begin(tx, c), InsertRow(tx)] + [Reread(tx), Commit(tx)], m')
    ensures m' == m.(db := m'.db, done := m'.done)
    ensures c.id in m'.db.discussions && NewlyCreated(m'.db.discussions[c.id], c) && FirstEventOnly(m.db, m'.db, c)
    ensures m'.db == m.db.(discussions := m.db.discussions[c.id := m'.db.discussions[c.id]],
                           statusEvents := m'.db.statusEvents)
    ensures m'.done == m.done + [Done(Normal(c), DiscussionRow(answer))] && NewlyCreated(answer, c)
  {
    var e := InitialEntry(m.db, Normal(c));
    var row := NewRow(Normal(c));
    var x := Txn(Normal(c), Written(row, e));
    var m2 := m.(db := Draw(m.db, e), txns := m.txns[tx := x]);
    DiscussionIsInserted(m, tx, c);
    WrittenCommits(m2, tx, Normal(c), row, e);
    answer := Projection(m2.db, row).discussion;
    m' := Completed(m2, tx, Normal(c), row, e, DiscussionRow(answer));
    LeadsOn(m, [Begin(tx, c), InsertRow(tx)], m2, [Reread(tx), Commit(tx)], m');
    EndsAsItBegan(m, tx, x);
  }

  /** A reply to a committed discussion likewise. */
  lemma ReplyCourse(m: Machine, tx: nat, c: Call) returns (m': Machine)
    requires FreshTransaction(m, tx) && c.op.CreateReply? && c.id !in m.db.replies
    requires forall x :: x in m.txns && m.txns[x].call.op.CreateReply? ==> m.txns[x].call.id != c.id
    requires c.op.replyInput.discussionID in m.db.discussions
    ensures Leads(m, [Begin(tx, c), InsertRow(tx)] + [Reread(tx), Commit(tx)], m')
    ensures m' == m.(db := m'.db, done := m'.done) && c.id in m'.db.replies
    ensures var r := m'.db.replies[c.id];
      && CarriesReply(r, c.op.replyInput, c.id, c.now) && r.body == c.op.replyInput.body
      && r.revision == 1 && r.updatedAt == c.now
      && m'.db == m.db.(replies := m.db.replies[c.id := r]) && m'.done == m.done + [Done(c, ReplyRow(r))]
  {
    var row := NewRow(c);
    var x := Txn(c, Written(row, NoEntry));
    var m1 := Do(m, Begin(tx, c));
    assert m1 == m.(txns := m.txns[tx := Txn(c, Began)]);
    var m2 := m.(txns := m.txns[tx := x]);
    assert m1.txns[tx := x] == m.txns[tx := x];
    assert Do(m1, InsertRow(tx)) == m2;
    LeadsTwo(m, Begin(tx, c), InsertRow(tx));
    WrittenCommits(m2, tx, c, row, NoEntry);
    m' := Completed(m2, tx, c, row, NoEntry, Projection(m2.db, row));
    LeadsOn(m, [Begin(tx, c), InsertRow(tx)], m2, [Reread(tx), Commit(tx)], m');
    EndsAsItBegan(m, tx, x);
  }

  /** A reply to a discussion that is not committed is answered NotFound and leaves no trace. */
  lemma ReplyToNothing(m: Machine, tx: nat, c: Call)
    requires FreshTransaction(m, tx) && c.op.CreateReply? && c.id !in m.db.replies
    requires forall x :: x in m.txns && m.txns[x].call.op.CreateReply? ==> m.txns[x].call.id != c.id
    requires c.op.replyInput.discussionID !in m.db.discussions
    ensures Leads(m, [Begin(tx, c), InsertRow(tx)], m.(done := m.done + [Done(c, Refused(NotFound))]))
  {
    var m1 := Do(m, Begin(tx, c));
    assert m1 == m.(txns := m.txns[tx := Txn(c, Began)]);
    EndsAsItBegan(m, tx, Txn(c, Began));
    LeadsTwo(m, Begin(tx, c), InsertRow(tx));
  }

  // ---------------------------------------------------------------- status changes and edits

  /** The row a locking call leaves: the status, or the body and the next revision, and the time of the call. */
  predicate ChangedAsAsked(was: Outcome, now: Outcome, c: Call) {
    match (c.op, was, now)
    case (SetStatus(_, to, _, _), DiscussionRow(d), DiscussionRow(d')) => d' == d.(status := to, updatedAt := c.now)
    case (EditBody(_, expected, newBody, _), DiscussionRow(d), DiscussionRow(d')) =>
      d.revision == expected && d' == d.(body := newBody, revision := expected + 1, updatedAt := c.now)
    case (EditBody(_, expected, newBody, _), ReplyRow(r), ReplyRow(r')) =>
      r.revision == expected && r' == r.(body := newBody, revision := expected + 1, updatedAt := c.now)
    case _ => false
  }

  /** The history row it adds under the next identity value: what the row was and what was asked. */
  predicate LoggedAsAsked(before: Db, after: Db, was: Outcome, c: Call) {
    match c.op
    case SetStatus(id, to, reason, actor) =>
      var k := before.statusEvents.next;
      && after.revisions == before.revisions && after.statusEvents.next == k + 1 && k in after.statusEvents.rows
      && after.statusEvents.rows == before.statusEvents.rows[k := after.statusEvents.rows[k]]
      && after.statusEvents.rows[k].discussionID == id && RecordsStatus(after.statusEvents.rows[k].event, c)
      && was.DiscussionRow? && after.statusEvents.rows[k].event.from == was.discussion.status
    case EditBody(t, _, newBody, editor) =>
      var k := before.revisions.next;
      && after.statusEvents == before.statusEvents && after.revisions.next == k + 1 && k in after.revisions.rows
      && after.revisions.rows == before.revisions.rows[k := after.revisions.rows[k]]
      && var r := after.revisions.rows[k];
         && r.target == t && r.newBody == newBody && r.editor == editor && r.at == c.now
         && (was.DiscussionRow? ==> r.oldBody == was.discussion.body)
         && (was.ReplyRow? ==> r.oldBody == was.reply.body)
    case _ => false
  }

  /** A locking call on an unlocked row, with a reason and a status the tables take, or with the current revision. */
  predicate CanChange(m: Machine, c: Call) {
    && LocksARow(c.op) && HasRow(m.db, TargetOf(c.op)) && TargetOf(c.op) !in m.locks
    && match (c.op, RowIn(m.db, TargetOf(c.op)))
       case (SetStatus(_, to, reason, _), _) => AcceptedStatus(to) && reason != ""
       case (EditBody(_, expected, _, _), DiscussionRow(d)) => d.revision == expected
       case (EditBody(_, expected, _, _), ReplyRow(r)) => r.revision == expected
       case _ => false
  }

  /** A transaction past its locking read and history row, which nobody else can disturb. */
  lemma ChangeIsLogged(m: Machine, tx: nat, c: Call)
    requires FreshTransaction(m, tx) && CanChange(m, c)
    ensures var t := TargetOf(c.op);
      var e := HistoryEntry(m.db, RowIn(m.db, t), c);
      Leads(m, [Begin(tx, c), LockRow(tx)] + [InsertHistory(tx), UpdateRow(tx)],
            m.(db := Draw(m.db, e), locks := m.locks[t := tx],
               txns := m.txns[tx := Txn(c, Written(Updated(RowIn(m.db, t), c), e))]))
  {
    var t := TargetOf(c.op);
    var image := RowIn(m.db, t);
    var e := HistoryEntry(m.db, image, c);
    var m1 := Do(m, Begin(tx, c));
    assert m1 == m.(txns := m.txns[tx := Txn(c, Began)]);
    var m2 := Do(m1, LockRow(tx));
    assert m1.txns[tx := Txn(c, Locked(image))] == m.txns[tx := Txn(c, Locked(image))];
    assert m2 == m.(txns := m.txns[tx := Txn(c, Locked(image))], locks := m.locks[t := tx]);
    LeadsTwo(m, Begin(tx, c), LockRow(tx));
    ChangeIsWritten(m, m2, tx, c, image, e);
    LeadsOn(m, [Begin(tx, c), LockRow(tx)], m2, [InsertHistory(tx), UpdateRow(tx)],
            Do(Do(m2, InsertHistory(tx)), UpdateRow(tx)));
  }

  lemma ChangeIsWritten(m: Machine, m2: Machine, tx: nat, c: Call, image: Outcome, e: Entry)
    requires LocksARow(c.op) && HasRow(m.db, TargetOf(c.op)) && image == RowIn(m.db, TargetOf(c.op))
    requires Constraints(c.op) && e == HistoryEntry(m.db, image, c)
    requires m2 == m.(txns := m.txns[tx := Txn(c, Locked(image))], locks := m.locks[TargetOf(c.op) := tx])
    ensures Enabled(m2, InsertHistory(tx)) && Enabled(Do(m2, InsertHistory(tx)), UpdateRow(tx))
    ensures Do(Do(m2, InsertHistory(tx)), UpdateRow(tx))
        == m.(db := Draw(m.db, e), locks := m2.locks, txns := m.txns[tx := Txn(c, Written(Updated(image, c), e))])
    ensures Leads(m2, [InsertHistory(tx), UpdateRow(tx)], Do(Do(m2, InsertHistory(tx)), UpdateRow(tx)))
  {
    var m3 := Do(m2, InsertHistory(tx));
    assert m3 == m2.(db := Draw(m.db, e), txns := m2.txns[tx := Txn(c, Logged(image, e))]);
    var x := Txn(c, Written(Updated(image, c), e));
    assert m3.txns[tx := x] == m.txns[tx := x];
    LeadsTwo(m2, InsertHistory(tx), UpdateRow(tx));
  }

  lemma LockIsReturned(m: Machine, tx: nat, t: Target)
    requires FreshTransaction(m, tx) && t !in m.locks
    ensures var locks := m.locks[t := tx];
      (map u | u in locks && locks[u] != tx :: locks[u]) == m.locks
  {
  }

  /** From any state a status change or an edit of a row nobody has locked, with the current revision, can run to its
      commit whatever other transactions hold: that row alone changes as asked, one history row is added, the answer is
      the new row, and the lock is free again. */
  lemma ChangeCourse(m: Machine, tx: nat, c: Call) returns (m': Machine)
    requires FreshTransaction(m, tx) && CanChange(m, c)
    requires forall id :: id in m.db.discussions ==> m.db.discussions[id].discussionID == id
    requires forall id :: id in m.db.replies ==> m.db.replies[id].replyID == id
    ensures Leads(m, [Begin(tx, c), LockRow(tx)] + [InsertHistory(tx), UpdateRow(tx)] + [Reread(tx), Commit(tx)], m')
    ensures m' == m.(db := m'.db, done := m'.done)
    ensures var t := TargetOf(c.op);
      && HasRow(m'.db, t) && ChangedAsAsked(RowIn(m.db, t), RowIn(m'.db, t), c)
      && (forall u :: HasRow(m'.db, u) <==> HasRow(m.db, u))
      && (forall u :: u != t && HasRow(m.db, u) ==> RowIn(m'.db, u) == RowIn(m.db, u))
      && LoggedAsAsked(m.db, m'.db, RowIn(m.db, t), c)
    ensures |m'.done| == |m.done| + 1 && m'.done[..|m.done|] == m.done && m'.done[|m.done|].call == c
    ensures SameAnswer(m'.done[|m.done|].outcome, RowIn(m'.db, TargetOf(c.op)))
  {
    var t := TargetOf(c.op);
    var image := RowIn(m.db, t);
    var row, e := Updated(image, c), HistoryEntry(m.db, image, c);
    var x := Txn(c, Written(row, e));
    var m2 := m.(db := Draw(m.db, e), locks := m.locks[t := tx], txns := m.txns[tx := x]);
    ChangeIsLogged(m, tx, c);
    WrittenCommits(m2, tx, c, row, e);
    m' := Completed(m2, tx, c, row, e, Projection(m2.db, row));
    LeadsOn(m, [Begin(tx, c), LockRow(tx)] + [InsertHistory(tx), UpdateRow(tx)], m2, [Reread(tx), Commit(tx)], m');
    EndsAsItBegan(m, tx, x);
    LockIsReturned(m, tx, t);
    StoredChange(m.db, m'.db, c);
  }

  lemma StoredChange(db: Db, db': Db, c: Call)
    requires LocksARow(c.op) && HasRow(db, TargetOf(c.op))
    requires forall id :: id in db.discussions ==> db.discussions[id].discussionID == id
    requires forall id :: id in db.replies ==> db.replies[id].replyID == id
    requires CasHolds(RowIn(db, TargetOf(c.op)), c.op)
    requires var image := RowIn(db, TargetOf(c.op));
      var e := HistoryEntry(db, image, c);
      db' == Append(Store(Draw(db, e), Updated(image, c)), e)
    ensures var t := TargetOf(c.op);
      && HasRow(db', t) && ChangedAsAsked(RowIn(db, t), RowIn(db', t), c)
      && (forall u :: HasRow(db', u) <==> HasRow(db, u))
      && (forall u :: u != t && HasRow(db, u) ==> RowIn(db', u) == RowIn(db, u))
      && LoggedAsAsked(db, db', RowIn(db, t), c)
      && RowIn(db', t) == Updated(RowIn(db, t), c)
  {
    match TargetOf(c.op) { case OnDiscussion(_) => case OnReply(_) => }
  }

  /** The row is missing, or has another revision. */
  predicate NoMatch(db: Db, c: Call, error: Error)
    requires LocksARow(c.op)
  {
    if !HasRow(db, TargetOf(c.op)) then error == NotFound
    else
      && error == RevisionConflict && c.op.EditBody?
      && match RowIn(db, TargetOf(c.op))
         case DiscussionRow(d) => d.revision != c.op.expected
         case ReplyRow(r) => r.revision != c.op.expected
         case Refused(_) => false
  }

  /** A locking call on a missing row, or with another revision, is answered with that error and leaves no trace. */
  lemma ChangeIsRefused(m: Machine, tx: nat, c: Call, error: Error)
    requires FreshTransaction(m, tx) && LocksARow(c.op) && !EmptyReasonCall(c)
    requires HasRow(m.db, TargetOf(c.op)) ==> TargetOf(c.op) !in m.locks
    requires NoMatch(m.db, c, error)
    ensures Leads(m, [Begin(tx, c), LockRow(tx)], m.(done := m.done + [Done(c, Refused(error))]))
  {
    var m1 := Do(m, Begin(tx, c));
    assert m1 == m.(txns := m.txns[tx := Txn(c, Began)]);
    EndsAsItBegan(m, tx, Txn(c, Began));
    LeadsTwo(m, Begin(tx, c), LockRow(tx));
  }

  /** A transaction may be rolled back at any moment: its rows never appear, its locks are free. */
  lemma RollbackCourse(m: Machine, tx: nat)
    requires tx in m.txns
    ensures Enabled(m, Abort(tx))
    ensures var m' := Do(m, Abort(tx));
      && m'.db == m.db && m'.done == m.done && tx !in m'.txns && m'.txns == m.txns - {tx}
      && (forall t :: t in m'.locks <==> t in m.locks && m.locks[t] != tx)
      && (forall t :: t in m'.locks ==> m'.locks[t] == m.locks[t])
  {
  }
}
