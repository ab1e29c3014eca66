/** The PostgreSQL store under any interleaving of its transactions.  Each statement of a
    transaction is one step; a step sees the committed rows and what its own transaction wrote,
    and SELECT ... FOR UPDATE waits until the row is unlocked and then reads the committed row. */
module PgStore {
  import opened CommentStore

  /** A table with an identity column: rows by id, and the next id to hand out. */
  datatype Table<R> = Table(rows: map<nat, R>, next: nat)

  datatype EventRow = EventRow(discussionID: string, event: StatusEvent)

  datatype Db = Db(
    discussions: map<string, Discussion>,
    replies: map<string, Reply>,
    revisions: Table<BodyRevision>,
    statusEvents: Table<EventRow>)

  const EMPTY_DB := Db(map[], map[], Table(map[], 0), Table(map[], 0))

  /** The values of the selected rows among those with id below n, in id order. */
  function Below<R, V>(rows: map<nat, R>, n: nat, sel: R -> bool, val: R -> V): seq<V> {
    if n == 0 then []
    else
      var before := Below(rows, n - 1, sel, val);
      if n - 1 in rows && sel(rows[n - 1]) then before + [val(rows[n - 1])] else before
  }

  function OnTarget(t: Target): BodyRevision -> bool {
    (r: BodyRevision) => r.target == t
  }

  function Itself(): BodyRevision -> BodyRevision {
    (r: BodyRevision) => r
  }

  function OfDiscussion(id: string): EventRow -> bool {
    (r: EventRow) => r.discussionID == id
  }

  function EventIn(): EventRow -> StatusEvent {
    (r: EventRow) => r.event
  }

  function RevisionLog(db: Db, t: Target): seq<BodyRevision> {
    Below(db.revisions.rows, db.revisions.next, OnTarget(t), Itself())
  }

  function EventLog(db: Db, id: string): seq<StatusEvent> {
    Below(db.statusEvents.rows, db.statusEvents.next, OfDiscussion(id), EventIn())
  }

  /** The committed tables hold the abstract store. */
  ghost predicate Represents(db: Db, st: State) {
    && st.discussions == db.discussions
    && st.replies == db.replies
    && (forall t :: EditsOf(st, t) == RevisionLog(db, t))
    && (forall id :: EventsOf(st, id) == EventLog(db, id))
  }

  // ---------------------------------------------------------------- transactions

  /** A history row a transaction has inserted, with the identity value the INSERT drew. */
  datatype Entry = NoEntry | RevisionEntry(k: nat, revision: BodyRevision) | EventEntry(k: nat, row: EventRow)

  datatype Phase =
    | Began
    | Locked(image: Outcome)
    | Logged(image: Outcome, entry: Entry)
    | Written(row: Outcome, entry: Entry)
    | Answered(row: Outcome, entry: Entry, result: Outcome)

  datatype Txn = Txn(call: Call, phase: Phase)

  /** A call answered with a row or a domain error, in the order the answers became final. */
  datatype Done = Done(call: Call, outcome: Outcome)

  datatype Machine = Machine(db: Db, txns: map<nat, Txn>, locks: map<Target, nat>, done: seq<Done>)

  const START := Machine(EMPTY_DB, map[], map[], [])

  /** RefuseEarly is SetStatus with an empty reason, which is answered before a transaction begins. */
  datatype Step =
    | RefuseEarly(refused: Call)
    | Begin(tx: nat, call: Call)
    | LockRow(tx: nat)
    | InsertHistory(tx: nat)
    | UpdateRow(tx: nat)
    | InsertRow(tx: nat)
    | Reread(tx: nat)
    | Commit(tx: nat)
    | Abort(tx: nat)

  predicate ValidStatus(s: string) {
    s in ["pending", "confirmed", "retracted"]
  }

  /** The CHECK constraints of migration 00008 on what this call inserts. */
  predicate Constraints(op: Op) {
    match op
    case CreateDiscussion(input) =>
      && input.pageIdx >= 0 && input.blockIndex >= 1 && input.scope in ["public", "lean"]
      && (input.status == "" || ValidStatus(input.status))
    case CreateReply(_) => true
    case SetStatus(_, to, _, _) => ValidStatus(to)
    case EditBody(_, _, _, _) => true
  }

  /** The call as the tables record it: an initial status always gets a reason. */
  function Normal(c: Call): Call {
    match c.op
    case CreateDiscussion(input) =>
      if input.status != "" && input.initialReason == "" then
        c.(op := Op.CreateDiscussion(input.(initialReason := "initial status")))
      else c
    case _ => c
  }

  predicate EmptyReasonCall(c: Call) {
    c.op.SetStatus? && c.op.reason == ""
  }

  predicate LocksARow(op: Op) {
    op.SetStatus? || op.EditBody?
  }

  function TargetOf(op: Op): Target
    requires LocksARow(op)
  {
    match op
    case SetStatus(id, _, _, _) => OnDiscussion(id)
    case EditBody(t, _, _, _) => t
  }

  predicate HasRow(db: Db, t: Target) {
    match t
    case OnDiscussion(id) => id in db.discussions
    case OnReply(id) => id in db.replies
  }

  function RowIn(db: Db, t: Target): Outcome
    requires HasRow(db, t)
  {
    match t
    case OnDiscussion(id) => DiscussionRow(db.discussions[id])
    case OnReply(id) => ReplyRow(db.replies[id])
  }

  predicate CasHolds(row: Outcome, op: Op) {
    op.EditBody? ==>
      match row
      case DiscussionRow(d) => d.revision == op.expected
      case ReplyRow(r) => r.revision == op.expected
      case Refused(_) => false
  }

  /** The row an UPDATE statement leaves, computed from the row it finds. */
  function Updated(row: Outcome, c: Call): Outcome {
    match (c.op, row)
    case (SetStatus(_, to, _, _), DiscussionRow(d)) => DiscussionRow(d.(status := to, updatedAt := c.now))
    case (EditBody(_, _, newBody, _), DiscussionRow(d)) =>
      DiscussionRow(d.(body := newBody, revision := d.revision + 1, updatedAt := c.now))
    case (EditBody(_, _, newBody, _), ReplyRow(r)) =>
      ReplyRow(r.(body := newBody, revision := r.revision + 1, updatedAt := c.now))
    case _ => row
  }

  /** The history row a locking call inserts, from the row image it read under the lock. */
  function HistoryEntry(db: Db, image: Outcome, c: Call): Entry {
    match (c.op, image)
    case (SetStatus(id, to, reason, actor), DiscussionRow(d)) =>
      EventEntry(db.statusEvents.next, EventRow(id, StatusEvent(d.status, to, reason, actor, c.now)))
    case (EditBody(t, _, newBody, editor), DiscussionRow(d)) =>
      RevisionEntry(db.revisions.next, BodyRevision(t, d.body, newBody, editor, c.now))
    case (EditBody(t, _, newBody, editor), ReplyRow(r)) =>
      RevisionEntry(db.revisions.next, BodyRevision(t, r.body, newBody, editor, c.now))
    case _ => NoEntry
  }

  function InitialEntry(db: Db, c: Call): Entry {
    match c.op
    case CreateDiscussion(input) =>
      if input.status == "" then NoEntry
      else EventEntry(db.statusEvents.next,
                      EventRow(c.id, StatusEvent("", input.status, input.initialReason, input.createdBy, c.now)))
    case _ => NoEntry
  }

  /** Identity values are drawn outside the transaction: they are not given back on abort. */
  function Draw(db: Db, e: Entry): Db {
    match e
    case NoEntry => db
    case RevisionEntry(_, _) => db.(revisions := db.revisions.(next := db.revisions.next + 1))
    case EventEntry(_, _) => db.(statusEvents := db.statusEvents.(next := db.statusEvents.next + 1))
  }

  function Store(db: Db, row: Outcome): Db {
    match row
    case DiscussionRow(d) => db.(discussions := db.discussions[d.discussionID := d])
    case ReplyRow(r) => db.(replies := db.replies[r.replyID := r])
    case Refused(_) => db
  }

  function Append(db: Db, e: Entry): Db {
    match e
    case NoEntry => db
    case RevisionEntry(k, revision) => db.(revisions := db.revisions.(rows := db.revisions.rows[k := revision]))
    case EventEntry(k, row) => db.(statusEvents := db.statusEvents.(rows := db.statusEvents.rows[k := row]))
  }

  /** The canonical projection: the row with the count of committed replies. */
  function Projection(db: Db, row: Outcome): Outcome {
    match row
    case DiscussionRow(d) =>
      DiscussionRow(d.(replyCount := |set r | r in db.replies && db.replies[r].discussionID == d.discussionID|))
    case _ => row
  }

  function NewRow(c: Call): Outcome {
    match c.op
    case CreateDiscussion(input) => DiscussionRow(NewDiscussion(input, c.now, c.id))
    case CreateReply(input) => ReplyRow(NewReply(input, c.now, c.id))
    case _ => Refused(NotFound)
  }

  predicate UnusedID(m: Machine, c: Call) {
    && (c.op.CreateDiscussion? ==>
          c.id !in m.db.discussions && forall x :: x in m.txns && m.txns[x].call.op.CreateDiscussion? ==>
            m.txns[x].call.id != c.id)
    && (c.op.CreateReply? ==>
          c.id !in m.db.replies && forall x :: x in m.txns && m.txns[x].call.op.CreateReply? ==>
            m.txns[x].call.id != c.id)
  }

  predicate Enabled(m: Machine, s: Step) {
    match s
    case RefuseEarly(c) => EmptyReasonCall(c)
    case Begin(tx, c) => tx !in m.txns && UnusedID(m, c) && !EmptyReasonCall(c)
    case LockRow(tx) =>
      && tx in m.txns && m.txns[tx].phase.Began? && LocksARow(m.txns[tx].call.op)
      && (HasRow(m.db, TargetOf(m.txns[tx].call.op)) ==> TargetOf(m.txns[tx].call.op) !in m.locks)
    case InsertHistory(tx) => tx in m.txns && m.txns[tx].phase.Locked? && Constraints(m.txns[tx].call.op)
    case UpdateRow(tx) =>
      && tx in m.txns && m.txns[tx].phase.Logged? && LocksARow(m.txns[tx].call.op)
      && HasRow(m.db, TargetOf(m.txns[tx].call.op))
    case InsertRow(tx) =>
      tx in m.txns && m.txns[tx].phase.Began? && !LocksARow(m.txns[tx].call.op) && Constraints(m.txns[tx].call.op)
    case Reread(tx) => tx in m.txns && m.txns[tx].phase.Written?
    case Commit(tx) => tx in m.txns && m.txns[tx].phase.Answered?
    case Abort(tx) => tx in m.txns
  }

  /** Rollback or end of a transaction: its private writes vanish and its locks are released. */
  function Ended(m: Machine, tx: nat): Machine {
    m.(txns := m.txns - {tx}, locks := map t | t in m.locks && m.locks[t] != tx :: m.locks[t])
  }

  function Refuse(m: Machine, tx: nat, e: Error): Machine
    requires tx in m.txns
  {
    Ended(m, tx).(done := m.done + [Done(m.txns[tx].call, Refused(e))])
  }

  function Do(m: Machine, s: Step): Machine
    requires Enabled(m, s)
  {
    match s
    case RefuseEarly(c) => m.(done := m.done + [Done(c, Refused(EmptyReason))])
    case Begin(tx, c) => m.(txns := m.txns[tx := Txn(Normal(c), Began)])
    case LockRow(tx) =>
      var x := m.txns[tx];
      var t := TargetOf(x.call.op);
      if !HasRow(m.db, t) then Refuse(m, tx, NotFound)
      else if !CasHolds(RowIn(m.db, t), x.call.op) then Refuse(m, tx, RevisionConflict)
      else m.(txns := m.txns[tx := x.(phase := Locked(RowIn(m.db, t)))], locks := m.locks[t := tx])
    case InsertHistory(tx) =>
      var x := m.txns[tx];
      var e := HistoryEntry(m.db, x.phase.image, x.call);
      m.(db := Draw(m.db, e), txns := m.txns[tx := x.(phase := Logged(x.phase.image, e))])
    case UpdateRow(tx) =>
      var x := m.txns[tx];
      m.(txns := m.txns[tx := x.(phase := Written(Updated(RowIn(m.db, TargetOf(x.call.op)), x.call), x.phase.entry))])
    case InsertRow(tx) =>
      var x := m.txns[tx];
      if x.call.op.CreateReply? && x.call.op.replyInput.discussionID !in m.db.discussions then Refuse(m, tx, NotFound)
      else
        var e := InitialEntry(m.db, x.call);
        m.(db := Draw(m.db, e), txns := m.txns[tx := x.(phase := Written(NewRow(x.call), e))])
    case Reread(tx) =>
      var x := m.txns[tx];
      m.(txns := m.txns[tx := x.(phase := Answered(x.phase.row, x.phase.entry, Projection(m.db, x.phase.row)))])
    case Commit(tx) =>
      var x := m.txns[tx];
      Ended(m, tx).(db := Append(Store(m.db, x.phase.row), x.phase.entry),
        done := m.done + [Done(x.call, x.phase.result)])
    case Abort(tx) => Ended(m, tx)
  }

  // ---------------------------------------------------------------- invariant

  function Calls(done: seq<Done>): seq<Call> {
    seq(|done|, i requires 0 <= i < |done| => done[i].call)
  }

  /** Equal up to the reply count, which MemStore's mutating calls leave at zero. */
  predicate SameAnswer(a: Outcome, b: Outcome) {
    match (a, b)
    case (DiscussionRow(d), DiscussionRow(e)) => d.(replyCount := 0) == e.(replyCount := 0)
    case _ => a == b
  }

  /** The answer to a call is the abstract store's, but for an empty reason, which is refused for missing
      discussions too. */
  predicate RightAnswer(d: Done, abstractAnswer: Outcome) {
    if EmptyReasonCall(d.call) then d.outcome == Refused(EmptyReason) else SameAnswer(d.outcome, abstractAnswer)
  }

  ghost predicate AnswersMatch(done: seq<Done>)
    requires ValidRun(Calls(done))
  {
    forall i :: 0 <= i < |done| ==>
      ValidRun(Calls(done[..i])) && RightAnswer(done[i], Apply(Replay(Calls(done[..i])), done[i].call).1)
  }

  predicate Holds(m: Machine, tx: nat, t: Target) {
    t in m.locks && m.locks[t] == tx
  }

  /** A drawn identity value not yet committed, later than every committed row of the same history. */
  ghost predicate Pending(db: Db, e: Entry) {
    match e
    case NoEntry => true
    case RevisionEntry(k, revision) =>
      && k < db.revisions.next && k !in db.revisions.rows
      && forall j :: j in db.revisions.rows && db.revisions.rows[j].target == revision.target ==> j < k
    case EventEntry(k, row) =>
      && k < db.statusEvents.next && k !in db.statusEvents.rows
      && forall j :: j in db.statusEvents.rows && db.statusEvents.rows[j].discussionID == row.discussionID ==> j < k
  }

  function EntryOf(x: Txn): Entry {
    match x.phase
    case Logged(_, e) => e
    case Written(_, e) => e
    case Answered(_, e, _) => e
    case _ => NoEntry
  }

  predicate Clash(a: Entry, b: Entry) {
    (a.RevisionEntry? && b.RevisionEntry? && a.k == b.k) || (a.EventEntry? && b.EventEntry? && a.k == b.k)
  }

  /** The history row that goes with changing `image` by this call. */
  predicate Records(e: Entry, image: Outcome, c: Call) {
    match (c.op, image)
    case (SetStatus(id, to, reason, actor), DiscussionRow(d)) =>
      e.EventEntry? && e.row == EventRow(id, StatusEvent(d.status, to, reason, actor, c.now))
    case (EditBody(t, _, newBody, editor), DiscussionRow(d)) =>
      e.RevisionEntry? && e.revision == BodyRevision(t, d.body, newBody, editor, c.now)
    case (EditBody(t, _, newBody, editor), ReplyRow(r)) =>
      e.RevisionEntry? && e.revision == BodyRevision(t, r.body, newBody, editor, c.now)
    case _ => false
  }

  predicate RecordsInitial(e: Entry, c: Call) {
    match c.op
    case CreateDiscussion(input) =>
      if input.status == "" then e.NoEntry?
      else
        && e.EventEntry?
        && e.row == EventRow(c.id, StatusEvent("", input.status, input.initialReason, input.createdBy, c.now))
    case _ => e.NoEntry?
  }

  /** What a transaction that has locked its row may rely on: nobody else changes it. */
  ghost predicate LockedOK(m: Machine, tx: nat, c: Call, image: Outcome) {
    && LocksARow(c.op) && Holds(m, tx, TargetOf(c.op))
    && HasRow(m.db, TargetOf(c.op)) && image == RowIn(m.db, TargetOf(c.op)) && CasHolds(image, c.op)
  }

  ghost predicate WrittenOK(m: Machine, tx: nat, c: Call, row: Outcome, e: Entry) {
    if LocksARow(c.op) then
      && HasRow(m.db, TargetOf(c.op)) && LockedOK(m, tx, c, RowIn(m.db, TargetOf(c.op)))
      && row == Updated(RowIn(m.db, TargetOf(c.op)), c) && Records(e, RowIn(m.db, TargetOf(c.op)), c)
    else
      && row == NewRow(c) && RecordsInitial(e, c)
      && (c.op.CreateReply? ==> c.op.replyInput.discussionID in m.db.discussions)
  }

  ghost predicate TxnOK(m: Machine, tx: nat)
    requires tx in m.txns
  {
    var x := m.txns[tx];
    && (x.call.op.CreateDiscussion? ==> x.call.id !in m.db.discussions)
    && (x.call.op.CreateReply? ==> x.call.id !in m.db.replies)
    && (x.call.op.SetStatus? ==> x.call.op.reason != "")
    && Pending(m.db, EntryOf(x))
    && match x.phase
       case Began => true
       case Locked(image) => LockedOK(m, tx, x.call, image)
       case Logged(image, e) => LockedOK(m, tx, x.call, image) && Records(e, image, x.call)
       case Written(row, e) => WrittenOK(m, tx, x.call, row, e)
       case Answered(row, e, result) => WrittenOK(m, tx, x.call, row, e) && SameAnswer(result, row)
  }

  ghost predicate TablesOK(db: Db) {
    && (forall k :: k in db.revisions.rows ==> k < db.revisions.next)
    && (forall k :: k in db.statusEvents.rows ==> k < db.statusEvents.next)
  }

  ghost predicate Apart(m: Machine) {
    forall x, y :: x in m.txns && y in m.txns && x != y ==>
      && !Clash(EntryOf(m.txns[x]), EntryOf(m.txns[y]))
      && (m.txns[x].call.op.CreateDiscussion? && m.txns[y].call.op.CreateDiscussion? ==>
        m.txns[x].call.id != m.txns[y].call.id)
      && (m.txns[x].call.op.CreateReply? && m.txns[y].call.op.CreateReply? ==> m.txns[x].call.id != m.txns[y].call.id)
  }

  ghost predicate Linearized(m: Machine) {
    && ValidRun(Calls(m.done))
    && Represents(m.db, Replay(Calls(m.done)))
    && AnswersMatch(m.done)
  }

  ghost predicate Inv(m: Machine) {
    && TablesOK(m.db)
    && (forall tx :: tx in m.txns ==> TxnOK(m, tx))
    && Apart(m)
    && Linearized(m)
  }
}
