/** A transaction that is rolled back might as well never have been sent. */
module PgAbort {
  import opened CommentStore
  import opened Options
  import opened PgRefinement
  import opened PgRuns
  import opened PgStore

  // ---------------------------------------------------------------- dropping one transaction

  predicate StepOf(s: Step, tx: nat) {
    !s.RefuseEarly? && s.tx == tx
  }

  /** The first n steps without those of transaction tx from step b to step a. */
  function Without(steps: seq<Step>, tx: nat, b: nat, a: nat, n: nat): (rest: seq<Step>)
    requires n <= |steps|
  {
    if n == 0 then []
    else if b <= n - 1 <= a && StepOf(steps[n - 1], tx) then Without(steps, tx, b, a, n - 1)
    else Without(steps, tx, b, a, n - 1) + [steps[n - 1]]
  }

  // ---------------------------------------------------------------- identity values around the lost one

  /** The identity value a row gets when the value in `gap` is also drawn. */
  function Up(k: nat, gap: Option<nat>): nat {
    if gap.Some? && gap.value <= k then k + 1 else k
  }

  function RevisionGap(gap: Entry): Option<nat> {
    if gap.RevisionEntry? then Some(gap.k) else None
  }

  function EventGap(gap: Entry): Option<nat> {
    if gap.EventEntry? then Some(gap.k) else None
  }

  function UpEntry(e: Entry, gap: Entry): Entry {
    match e
    case NoEntry => NoEntry
    case RevisionEntry(k, revision) => RevisionEntry(Up(k, RevisionGap(gap)), revision)
    case EventEntry(k, row) => EventEntry(Up(k, EventGap(gap)), row)
  }

  function UpTxn(x: Txn, gap: Entry): (up: Txn)
    ensures up.call == x.call && EntryOf(up) == UpEntry(EntryOf(x), gap)
  {
    match x.phase
    case Began => x
    case Locked(_) => x
    case Logged(image, e) => x.(phase := Phase.Logged(image, UpEntry(e, gap)))
    case Written(row, e) => x.(phase := Written(row, UpEntry(e, gap)))
    case Answered(row, e, result) => x.(phase := Answered(row, UpEntry(e, gap), result))
  }

  ghost predicate ShiftedTable<R>(t: Table<R>, t': Table<R>, gap: Option<nat>) {
    && t.next == Up(t'.next, gap)
    && (gap.Some? ==> gap.value !in t.rows && gap.value <= t'.next)
    && (forall k: nat :: k in t'.rows <==> Up(k, gap) in t.rows)
    && (forall k: nat :: k in t'.rows ==> t.rows[Up(k, gap)] == t'.rows[k])
  }

  ghost predicate ShiftedDb(db: Db, db': Db, gap: Entry) {
    && db.discussions == db'.discussions && db.replies == db'.replies
    && ShiftedTable(db.revisions, db'.revisions, RevisionGap(gap))
    && ShiftedTable(db.statusEvents, db'.statusEvents, EventGap(gap))
  }

  lemma RowShifts<R>(t: Table<R>, t': Table<R>, gap: Option<nat>, k: nat)
    requires ShiftedTable(t, t', gap)
    ensures k in t'.rows <==> Up(k, gap) in t.rows
    ensures k in t'.rows ==> t.rows[Up(k, gap)] == t'.rows[k]
    ensures gap == Some(k + 1) ==> k + 1 !in t.rows
  {
  }

  lemma {:induction false} BelowShifts<R, V>(t: Table<R>, t': Table<R>, gap: Option<nat>, n: nat,
                                             sel: R -> bool, val: R -> V)
    requires ShiftedTable(t, t', gap)
    ensures Below(t.rows, Up(n, gap), sel, val) == Below(t'.rows, n, sel, val)
  {
    if n > 0 {
      var k := n - 1;
      BelowShifts(t, t', gap, k, sel, val);
      RowShifts(t, t', gap, k);
      BelowUnrolls(t.rows, t'.rows, gap, k, sel, val);
      assert k + 1 == n;
    }
  }

  lemma BelowUnrolls<R, V>(rows: map<nat, R>, rows': map<nat, R>, gap: Option<nat>, k: nat, sel: R -> bool, val: R -> V)
    requires k in rows' <==> Up(k, gap) in rows
    requires k in rows' ==> rows[Up(k, gap)] == rows'[k]
    requires gap == Some(k + 1) ==> k + 1 !in rows
    requires Below(rows, Up(k, gap), sel, val) == Below(rows', k, sel, val)
    ensures Below(rows, Up(k + 1, gap), sel, val) == Below(rows', k + 1, sel, val)
  {
  }

  /** The same rows, and the same history of every row in the same order. */
  ghost predicate SameStore(db: Db, db': Db) {
    && db.discussions == db'.discussions && db.replies == db'.replies
    && (forall t :: RevisionLog(db, t) == RevisionLog(db', t))
    && (forall id :: EventLog(db, id) == EventLog(db', id))
  }

  lemma ShiftedIsTheSameStore(db: Db, db': Db, gap: Entry)
    requires ShiftedDb(db, db', gap)
    ensures SameStore(db, db')
  {
    forall t ensures RevisionLog(db, t) == RevisionLog(db', t) {
      BelowShifts(db.revisions, db'.revisions, RevisionGap(gap), db'.revisions.next, OnTarget(t), Itself());
    }
    forall id ensures EventLog(db, id) == EventLog(db', id) {
      BelowShifts(db.statusEvents, db'.statusEvents, EventGap(gap), db'.statusEvents.next, OfDiscussion(id), EventIn());
    }
  }

  // ---------------------------------------------------------------- the run with and the run without

  function LocksOfOthers(locks: map<Target, nat>, tx: nat): map<Target, nat> {
    map t | t in locks && locks[t] != tx :: locks[t]
  }

  /** m' is m as if transaction tx, while it is alive, were not there, and nobody had drawn the value in gap. */
  ghost predicate Beside(m: Machine, m': Machine, tx: nat, alive: bool, gap: Entry) {
    && ShiftedDb(m.db, m'.db, gap)
    && (forall y :: y in m'.txns <==> y in m.txns && !(alive && y == tx))
    && (forall y :: y in m'.txns ==> m.txns[y] == UpTxn(m'.txns[y], gap))
    && m'.locks == (if alive then LocksOfOthers(m.locks, tx) else m.locks)
    && m'.done == m.done
    && (alive ==> tx in m.txns && gap == EntryOf(m.txns[tx]))
  }

  lemma RowsAgree(db: Db, db': Db, gap: Entry, t: Target)
    requires ShiftedDb(db, db', gap)
    ensures HasRow(db, t) <==> HasRow(db', t)
    ensures HasRow(db, t) ==> RowIn(db, t) == RowIn(db', t)
  {
  }

  lemma DrawShifts(db: Db, db': Db, gap: Entry, e': Entry)
    requires ShiftedDb(db, db', gap)
    ensures ShiftedDb(Draw(db, UpEntry(e', gap)), Draw(db', e'), gap)
  {
  }

  lemma StoreShifts(db: Db, db': Db, gap: Entry, row: Outcome)
    requires ShiftedDb(db, db', gap)
    ensures ShiftedDb(Store(db, row), Store(db', row), gap)
  {
  }

  lemma PutShifts<R>(t: Table<R>, t': Table<R>, gap: Option<nat>, k: nat, r: R)
    requires ShiftedTable(t, t', gap)
    ensures ShiftedTable(t.(rows := t.rows[Up(k, gap) := r]), t'.(rows := t'.rows[k := r]), gap)
  {
    var rows, rows' := t.rows[Up(k, gap) := r], t'.rows[k := r];
    forall j: nat ensures j in rows' <==> Up(j, gap) in rows {
      assert j in t'.rows <==> Up(j, gap) in t.rows;
    }
  }

  lemma AppendShifts(db: Db, db': Db, gap: Entry, e': Entry)
    requires ShiftedDb(db, db', gap)
    ensures ShiftedDb(Append(db, UpEntry(e', gap)), Append(db', e'), gap)
  {
    match e'
    case NoEntry =>
    case RevisionEntry(k, revision) => PutShifts(db.revisions, db'.revisions, RevisionGap(gap), k, revision);
    case EventEntry(k, row) => PutShifts(db.statusEvents, db'.statusEvents, EventGap(gap), k, row);
  }

  function Changed(m: Machine, db: Db, y: nat, x: Txn): Machine {
    m.(db := db, txns := m.txns[y := x])
  }

  /** A change of one other transaction, seen on both sides. */
  lemma OneTxnChanges(m: Machine, m': Machine, tx: nat, alive: bool, gap: Entry, db: Db, db': Db, y: nat, x': Txn)
    requires Beside(m, m', tx, alive, gap) && !(alive && y == tx) && ShiftedDb(db, db', gap)
    ensures Beside(Changed(m, db, y, UpTxn(x', gap)), Changed(m', db', y, x'), tx, alive, gap)
  {
  }

  lemma PeerOf(m: Machine, m': Machine, tx: nat, alive: bool, gap: Entry, y: nat)
    requires Beside(m, m', tx, alive, gap) && !(alive && y == tx) && y in m.txns
    ensures y in m'.txns && m.txns[y] == UpTxn(m'.txns[y], gap)
  {
  }

  lemma LocksCommute(locks: map<Target, nat>, x: nat, y: nat)
    ensures LocksOfOthers(LocksOfOthers(locks, x), y) == LocksOfOthers(LocksOfOthers(locks, y), x)
  {
  }

  lemma EndsAs(m: Machine, y: nat)
    ensures Ended(m, y) == m.(txns := m.txns - {y}, locks := LocksOfOthers(m.locks, y))
  {
  }

  lemma EndsBeside(m: Machine, m': Machine, tx: nat, alive: bool, gap: Entry, y: nat)
    requires Beside(m, m', tx, alive, gap) && !(alive && y == tx)
    ensures Beside(Ended(m, y), Ended(m', y), tx, alive, gap)
  {
    LocksCommute(m.locks, tx, y);
    EndsAs(m, y);
    EndsAs(m', y);
  }

  lemma RefusesBeside(m: Machine, m': Machine, tx: nat, alive: bool, gap: Entry, y: nat, e: Error)
    requires Beside(m, m', tx, alive, gap) && y in m'.txns
    ensures Beside(Refuse(m, y, e), Refuse(m', y, e), tx, alive, gap)
  {
    EndsBeside(m, m', tx, alive, gap, y);
  }

  lemma UnusedBeside(m: Machine, m': Machine, tx: nat, alive: bool, gap: Entry, c: Call)
    requires Beside(m, m', tx, alive, gap) && UnusedID(m, c)
    ensures UnusedID(m', c)
  {
    forall x | x in m'.txns ensures x in m.txns && m.txns[x].call == m'.txns[x].call {
    }
  }

  lemma BeginsBeside(m: Machine, m': Machine, tx: nat, alive: bool, gap: Entry, y: nat, c: Call)
    requires Beside(m, m', tx, alive, gap) && !(alive && y == tx) && Enabled(m, Begin(y, c))
    ensures Enabled(m', Begin(y, c)) && Beside(Do(m, Begin(y, c)), Do(m', Begin(y, c)), tx, alive, gap)
  {
    UnusedBeside(m, m', tx, alive, gap, c);
    var x := Txn(Normal(c), Began);
    assert UpTxn(x, gap) == x;
    OneTxnChanges(m, m', tx, alive, gap, m.db, m'.db, y, x);
    assert Do(m, Begin(y, c)) == Changed(m, m.db, y, x) && Do(m', Begin(y, c)) == Changed(m', m'.db, y, x);
  }

  // Each statement, on the side where the lost value was drawn.

  lemma LocksAs(m: Machine, y: nat, x: Txn, gap: Entry)
    requires y in m.txns && m.txns[y] == UpTxn(x, gap) && Enabled(m, LockRow(y))
    ensures x.phase.Began? && LocksARow(x.call.op)
    ensures var t := TargetOf(x.call.op);
      Do(m, LockRow(y)) ==
        if !HasRow(m.db, t) then Refuse(m, y, NotFound)
        else if !CasHolds(RowIn(m.db, t), x.call.op) then Refuse(m, y, RevisionConflict)
        else Changed(m, m.db, y, UpTxn(x.(phase := Locked(RowIn(m.db, t))), gap)).(locks := m.locks[t := y])
  {
  }

  lemma LogsAs(m: Machine, y: nat, x: Txn, gap: Entry, e: Entry)
    requires y in m.txns && m.txns[y] == UpTxn(x, gap) && Enabled(m, InsertHistory(y)) && x.phase.Locked?
    requires HistoryEntry(m.db, x.phase.image, x.call) == UpEntry(e, gap)
    ensures Do(m, InsertHistory(y))
         == Changed(m, Draw(m.db, UpEntry(e, gap)), y, UpTxn(x.(phase := Phase.Logged(x.phase.image, e)), gap))
  {
  }

  lemma UpdatesAs(m: Machine, y: nat, x: Txn, gap: Entry)
    requires y in m.txns && m.txns[y] == UpTxn(x, gap) && Enabled(m, UpdateRow(y))
    ensures x.phase.Logged? && LocksARow(x.call.op)
    ensures var row := Updated(RowIn(m.db, TargetOf(x.call.op)), x.call);
      Do(m, UpdateRow(y)) == Changed(m, m.db, y, UpTxn(x.(phase := Written(row, x.phase.entry)), gap))
  {
  }

  lemma InsertsAs(m: Machine, y: nat, x: Txn, gap: Entry, e: Entry)
    requires y in m.txns && m.txns[y] == UpTxn(x, gap) && Enabled(m, InsertRow(y))
    requires InitialEntry(m.db, x.call) == UpEntry(e, gap)
    requires x.call.op.CreateReply? ==> x.call.op.replyInput.discussionID in m.db.discussions
    ensures Do(m, InsertRow(y))
         == Changed(m, Draw(m.db, UpEntry(e, gap)), y, UpTxn(x.(phase := Written(NewRow(x.call), e)), gap))
  {
  }

  lemma RereadsAs(m: Machine, y: nat, x: Txn, gap: Entry)
    requires y in m.txns && m.txns[y] == UpTxn(x, gap) && Enabled(m, Reread(y))
    ensures x.phase.Written?
    ensures Do(m, Reread(y))
         == Changed(m, m.db, y,
           UpTxn(x.(phase := Answered(x.phase.row, x.phase.entry, Projection(m.db, x.phase.row))), gap))
  {
  }

  lemma LockOfAnother(locks: map<Target, nat>, tx: nat, t: Target, y: nat)
    requires y != tx && t !in locks
    ensures LocksOfOthers(locks[t := y], tx) == LocksOfOthers(locks, tx)[t := y]
  {
  }

  lemma BesideWithLocks(m: Machine, m': Machine, tx: nat, alive: bool, gap: Entry, locks: map<Target, nat>,
                        locks': map<Target, nat>)
    requires Beside(m, m', tx, alive, gap) && locks' == (if alive then LocksOfOthers(locks, tx) else locks)
    ensures Beside(m.(locks := locks), m'.(locks := locks'), tx, alive, gap)
  {
  }

  lemma TakesALock(m: Machine, m': Machine, tx: nat, alive: bool, gap: Entry, t: Target, y: nat)
    requires Beside(m, m', tx, alive, gap) && !(alive && y == tx) && t !in m.locks
    ensures t !in m'.locks
    ensures Beside(m.(locks := m.locks[t := y]), m'.(locks := m'.locks[t := y]), tx, alive, gap)
  {
    if alive {
      LockOfAnother(m.locks, tx, t, y);
    }
    BesideWithLocks(m, m', tx, alive, gap, m.locks[t := y], m'.locks[t := y]);
  }

  lemma LocksBeside(m: Machine, m': Machine, tx: nat, alive: bool, gap: Entry, y: nat)
    requires Beside(m, m', tx, alive, gap) && !(alive && y == tx) && Enabled(m, LockRow(y))
    ensures Enabled(m', LockRow(y)) && Beside(Do(m, LockRow(y)), Do(m', LockRow(y)), tx, alive, gap)
  {
    PeerOf(m, m', tx, alive, gap, y);
    var x := m'.txns[y];
    LocksAs(m, y, x, gap);
    var t := TargetOf(x.call.op);
    RowsAgree(m.db, m'.db, gap, t);
    if !HasRow(m.db, t) {
      RefusesBeside(m, m', tx, alive, gap, y, NotFound);
    } else {
      TakesALock(m, m', tx, alive, gap, t, y);
      if !CasHolds(RowIn(m.db, t), x.call.op) {
        RefusesBeside(m, m', tx, alive, gap, y, RevisionConflict);
      } else {
        var l, l' := m.(locks := m.locks[t := y]), m'.(locks := m'.locks[t := y]);
        OneTxnChanges(l, l', tx, alive, gap, m.db, m'.db, y, x.(phase := Locked(RowIn(m.db, t))));
      }
    }
  }

  lemma HistoryEntryShifts(db: Db, db': Db, gap: Entry, image: Outcome, c: Call)
    requires db.revisions.next == Up(db'.revisions.next, RevisionGap(gap))
    requires db.statusEvents.next == Up(db'.statusEvents.next, EventGap(gap))
    ensures HistoryEntry(db, image, c) == UpEntry(HistoryEntry(db', image, c), gap)
  {
  }

  lemma InitialEntryShifts(db: Db, db': Db, gap: Entry, c: Call)
    requires db.statusEvents.next == Up(db'.statusEvents.next, EventGap(gap))
    ensures InitialEntry(db, c) == UpEntry(InitialEntry(db', c), gap)
  {
  }

  lemma LogsBeside(m: Machine, m': Machine, tx: nat, alive: bool, gap: Entry, y: nat)
    requires Beside(m, m', tx, alive, gap) && !(alive && y == tx) && Enabled(m, InsertHistory(y))
    ensures Enabled(m', InsertHistory(y)) && Beside(Do(m, InsertHistory(y)), Do(m', InsertHistory(y)), tx, alive, gap)
  {
    PeerOf(m, m', tx, alive, gap, y);
    var x := m'.txns[y];
    var image := x.phase.image;
    var e := HistoryEntry(m'.db, image, x.call);
    HistoryEntryShifts(m.db, m'.db, gap, image, x.call);
    DrawShifts(m.db, m'.db, gap, e);
    LogsAs(m, y, x, gap, e);
    OneTxnChanges(m, m', tx, alive, gap, Draw(m.db, UpEntry(e, gap)), Draw(m'.db, e), y,
      x.(phase := Phase.Logged(image, e)));
  }

  lemma UpdatesBeside(m: Machine, m': Machine, tx: nat, alive: bool, gap: Entry, y: nat)
    requires Beside(m, m', tx, alive, gap) && !(alive && y == tx) && Enabled(m, UpdateRow(y))
    ensures Enabled(m', UpdateRow(y)) && Beside(Do(m, UpdateRow(y)), Do(m', UpdateRow(y)), tx, alive, gap)
  {
    PeerOf(m, m', tx, alive, gap, y);
    var x := m'.txns[y];
    UpdatesAs(m, y, x, gap);
    var t := TargetOf(x.call.op);
    RowsAgree(m.db, m'.db, gap, t);
    var row := Updated(RowIn(m'.db, t), x.call);
    OneTxnChanges(m, m', tx, alive, gap, m.db, m'.db, y, x.(phase := Written(row, x.phase.entry)));
  }

  lemma InsertsBeside(m: Machine, m': Machine, tx: nat, alive: bool, gap: Entry, y: nat)
    requires Beside(m, m', tx, alive, gap) && !(alive && y == tx) && Enabled(m, InsertRow(y))
    ensures Enabled(m', InsertRow(y)) && Beside(Do(m, InsertRow(y)), Do(m', InsertRow(y)), tx, alive, gap)
  {
    PeerOf(m, m', tx, alive, gap, y);
    var x := m'.txns[y];
    if x.call.op.CreateReply? && x.call.op.replyInput.discussionID !in m.db.discussions {
      RefusesBeside(m, m', tx, alive, gap, y, NotFound);
    } else {
      var e := InitialEntry(m'.db, x.call);
      InitialEntryShifts(m.db, m'.db, gap, x.call);
      DrawShifts(m.db, m'.db, gap, e);
      InsertsAs(m, y, x, gap, e);
      OneTxnChanges(m, m', tx, alive, gap, Draw(m.db, UpEntry(e, gap)), Draw(m'.db, e), y,
        x.(phase := Written(NewRow(x.call), e)));
    }
  }

  lemma RereadsBeside(m: Machine, m': Machine, tx: nat, alive: bool, gap: Entry, y: nat)
    requires Beside(m, m', tx, alive, gap) && !(alive && y == tx) && Enabled(m, Reread(y))
    ensures Enabled(m', Reread(y)) && Beside(Do(m, Reread(y)), Do(m', Reread(y)), tx, alive, gap)
  {
    PeerOf(m, m', tx, alive, gap, y);
    var x := m'.txns[y];
    RereadsAs(m, y, x, gap);
    var answer := Projection(m.db, x.phase.row);
    assert answer == Projection(m'.db, x.phase.row);
    OneTxnChanges(m, m', tx, alive, gap, m.db, m'.db, y, x.(phase := Answered(x.phase.row, x.phase.entry, answer)));
  }

  lemma CommitsBeside(m: Machine, m': Machine, tx: nat, alive: bool, gap: Entry, y: nat)
    requires Beside(m, m', tx, alive, gap) && !(alive && y == tx) && Enabled(m, Step.Commit(y))
    ensures Enabled(m', Step.Commit(y)) && Beside(Do(m, Step.Commit(y)), Do(m', Step.Commit(y)), tx, alive, gap)
  {
    PeerOf(m, m', tx, alive, gap, y);
    var x := m'.txns[y];
    StoreShifts(m.db, m'.db, gap, x.phase.row);
    AppendShifts(Store(m.db, x.phase.row), Store(m'.db, x.phase.row), gap, x.phase.entry);
    EndsBeside(m, m', tx, alive, gap, y);
  }

  /** Every step of another transaction can be taken without tx, with the same effect. */
  lemma OthersStep(m: Machine, m': Machine, tx: nat, alive: bool, gap: Entry, s: Step)
    requires Beside(m, m', tx, alive, gap) && Enabled(m, s) && !(alive && StepOf(s, tx))
    ensures Enabled(m', s) && Beside(Do(m, s), Do(m', s), tx, alive, gap)
  {
    match s
    case RefuseEarly(_) =>
    case Begin(y, c) => BeginsBeside(m, m', tx, alive, gap, y, c);
    case LockRow(y) => LocksBeside(m, m', tx, alive, gap, y);
    case InsertHistory(y) => LogsBeside(m, m', tx, alive, gap, y);
    case UpdateRow(y) => UpdatesBeside(m, m', tx, alive, gap, y);
    case InsertRow(y) => InsertsBeside(m, m', tx, alive, gap, y);
    case Reread(y) => RereadsBeside(m, m', tx, alive, gap, y);
    case Commit(y) => CommitsBeside(m, m', tx, alive, gap, y);
    case Abort(y) => EndsBeside(m, m', tx, alive, gap, y);
  }

  // ---------------------------------------------------------------- the steps of tx itself

  /** Drawing a value opens the gap above everything drawn so far. */
  lemma DrawOpensTheGap<R>(t: Table<R>, t': Table<R>)
    requires ShiftedTable(t, t', None) && forall k :: k in t.rows ==> k < t.next
    ensures ShiftedTable(t.(next := t.next + 1), t', Some(t.next))
  {
    forall k: nat ensures k in t'.rows <==> Up(k, Some(t.next)) in t.rows {
      assert k in t'.rows <==> Up(k, None) in t.rows;
    }
  }

  lemma DrawBeside(db: Db, db': Db, e: Entry)
    requires ShiftedDb(db, db', NoEntry) && TablesOK(db)
    requires e.RevisionEntry? ==> e.k == db.revisions.next
    requires e.EventEntry? ==> e.k == db.statusEvents.next
    ensures ShiftedDb(Draw(db, e), db', e)
  {
    if e.RevisionEntry? {
      DrawOpensTheGap(db.revisions, db'.revisions);
    } else if e.EventEntry? {
      DrawOpensTheGap(db.statusEvents, db'.statusEvents);
    }
  }

  lemma PendingIsBelowTheGap(m: Machine, m': Machine, tx: nat, e: Entry, y: nat)
    requires Inv(m) && Beside(m, m', tx, true, NoEntry) && y in m'.txns
    requires e.RevisionEntry? ==> e.k == m.db.revisions.next
    requires e.EventEntry? ==> e.k == m.db.statusEvents.next
    ensures m.txns[y] == UpTxn(m'.txns[y], e)
  {
    assert TxnOK(m, y);
    PeerOf(m, m', tx, true, NoEntry, y);
    UpBelowTheGap(m.db, m'.txns[y], e);
  }

  lemma UpBelowTheGap(db: Db, x: Txn, e: Entry)
    requires Pending(db, UpEntry(EntryOf(x), NoEntry))
    requires e.RevisionEntry? ==> e.k == db.revisions.next
    requires e.EventEntry? ==> e.k == db.statusEvents.next
    ensures UpTxn(x, NoEntry) == UpTxn(x, e)
  {
  }

  /** What a statement of tx that does not end it does: it may draw one value, its first, and take a lock. */
  lemma OwnEffect(m: Machine, tx: nat, s: Step)
    requires Enabled(m, s) && StepOf(s, tx) && tx in m.txns && tx in Do(m, s).txns
    ensures var n, e, was := Do(m, s), EntryOf(Do(m, s).txns[tx]), EntryOf(m.txns[tx]);
      && n.txns == m.txns[tx := n.txns[tx]] && n.done == m.done
      && (n.locks == m.locks || exists t :: t !in m.locks && n.locks == m.locks[t := tx])
      && if e == was then n.db == m.db
         else was == NoEntry && n.db == Draw(m.db, e)
              && (e.RevisionEntry? ==> e.k == m.db.revisions.next) && (e.EventEntry? ==> e.k == m.db.statusEvents.next)
  {
    if s.LockRow? {
      var t := TargetOf(m.txns[tx].call.op);
      assert t !in m.locks && Do(m, s).locks == m.locks[t := tx];
    }
  }

  lemma OwnLock(locks: map<Target, nat>, tx: nat, t: Target)
    requires t !in locks
    ensures LocksOfOthers(locks[t := tx], tx) == LocksOfOthers(locks, tx)
  {
  }

  lemma OwnLocks(locks: map<Target, nat>, locks': map<Target, nat>, tx: nat)
    requires locks' == locks || exists t :: t !in locks && locks' == locks[t := tx]
    ensures LocksOfOthers(locks', tx) == LocksOfOthers(locks, tx)
  {
    if locks' != locks {
      var t :| t !in locks && locks' == locks[t := tx];
      OwnLock(locks, tx, t);
    }
  }

  lemma OwnDraw(m: Machine, m': Machine, tx: nat, e: Entry)
    requires Inv(m) && Beside(m, m', tx, true, NoEntry)
    requires e.RevisionEntry? ==> e.k == m.db.revisions.next
    requires e.EventEntry? ==> e.k == m.db.statusEvents.next
    ensures ShiftedDb(Draw(m.db, e), m'.db, e)
    ensures forall y :: y in m'.txns ==> m.txns[y] == UpTxn(m'.txns[y], e)
  {
    DrawBeside(m.db, m'.db, e);
    forall y | y in m'.txns ensures m.txns[y] == UpTxn(m'.txns[y], e) {
      PendingIsBelowTheGap(m, m', tx, e, y);
    }
  }

  lemma OwnChange(m: Machine, m': Machine, tx: nat, gap: Entry, n: Machine, x: Txn)
    requires Beside(m, m', tx, true, gap)
    requires n.txns == m.txns[tx := x] && n.done == m.done && LocksOfOthers(n.locks, tx) == LocksOfOthers(m.locks, tx)
    requires ShiftedDb(n.db, m'.db, EntryOf(x))
    requires forall y :: y in m'.txns ==> m.txns[y] == UpTxn(m'.txns[y], EntryOf(x))
    ensures Beside(n, m', tx, true, EntryOf(x))
  {
  }

  /** A step of tx that does not end it is not seen beside it. */
  lemma OwnStep(m: Machine, m': Machine, tx: nat, gap: Entry, s: Step)
    requires Inv(m) && Beside(m, m', tx, true, gap) && Enabled(m, s) && StepOf(s, tx) && tx in Do(m, s).txns
    ensures Beside(Do(m, s), m', tx, true, EntryOf(Do(m, s).txns[tx]))
  {
    var n := Do(m, s);
    OwnEffect(m, tx, s);
    OwnLocks(m.locks, n.locks, tx);
    if EntryOf(n.txns[tx]) != gap {
      OwnDraw(m, m', tx, EntryOf(n.txns[tx]));
    }
    OwnChange(m, m', tx, gap, n, n.txns[tx]);
  }

  ghost predicate HoldersAlive(m: Machine) {
    forall t :: t in m.locks ==> m.locks[t] in m.txns
  }

  lemma HoldersStayAlive(m: Machine, s: Step)
    requires Enabled(m, s) && HoldersAlive(m)
    ensures HoldersAlive(Do(m, s))
  {
  }

  lemma {:induction false} HoldersAreAlive(steps: seq<Step>, states: seq<Machine>, n: nat)
    requires Behaviour(steps, states) && n < |states|
    ensures HoldersAlive(states[n])
  {
    if n > 0 {
      HoldersAreAlive(steps, states, n - 1);
      HoldersStayAlive(states[n - 1], steps[n - 1]);
    }
  }

  lemma OwnBegin(m: Machine, m': Machine, s: Step)
    requires s.Begin? && Beside(m, m', s.tx, false, NoEntry) && Enabled(m, s)
    requires HoldersAlive(m)
    ensures Beside(Do(m, s), m', s.tx, true, NoEntry)
  {
  }

  lemma OwnAbort(m: Machine, m': Machine, tx: nat, gap: Entry)
    requires Beside(m, m', tx, true, gap)
    ensures Beside(Ended(m, tx), m', tx, false, gap)
  {
  }

  // ---------------------------------------------------------------- whole runs

  /** Transaction tx runs from its Begin at step b to its rollback at step a. */
  ghost predicate RolledBack(steps: seq<Step>, states: seq<Machine>, tx: nat, b: nat, a: nat) {
    && Behaviour(steps, states) && b < a < |steps|
    && steps[b].Begin? && steps[b].tx == tx && steps[a] == Step.Abort(tx)
    && forall i :: b < i <= a ==> tx in states[i].txns
  }

  /** A dropped step: the first, the last or one in between. */
  lemma DroppedStep(m: Machine, s: Step, m': Machine, tx: nat, gap: Entry, first: bool, last: bool)
    returns (gap': Entry)
    requires Inv(m) && Enabled(m, s) && StepOf(s, tx) && !(first && last)
    requires HoldersAlive(m)
    requires first ==> s.Begin? && gap == NoEntry
    requires if last then s == Step.Abort(tx) else tx in Do(m, s).txns
    requires Beside(m, m', tx, !first, gap)
    ensures Beside(Do(m, s), m', tx, !last, gap')
  {
    if first {
      OwnBegin(m, m', s);
      gap' := NoEntry;
    } else if last {
      OwnAbort(m, m', tx, gap);
      gap' := gap;
    } else {
      OwnStep(m, m', tx, gap, s);
      gap' := EntryOf(Do(m, s).txns[tx]);
    }
  }

  /** What step k of the run looks like from its own two states. */
  ghost predicate IsStep(m: Machine, s: Step, n: Machine, tx: nat, b: nat, a: nat, k: nat) {
    && Inv(m) && Enabled(m, s) && n == Do(m, s) && HoldersAlive(m)
    && (k == b ==> s.Begin? && s.tx == tx) && (k == a ==> s == Step.Abort(tx)) && (b <= k < a ==> tx in n.txns)
  }

  lemma StepOfTheRun(steps: seq<Step>, states: seq<Machine>, tx: nat, b: nat, a: nat, k: nat)
    requires RolledBack(steps, states, tx, b, a) && k < |steps|
    ensures IsStep(states[k], steps[k], states[k + 1], tx, b, a, k)
  {
    InvAlways(steps, states, k);
    HoldersAreAlive(steps, states, k);
  }

  lemma OneStepBeside(m: Machine, s: Step, n: Machine, rest: seq<Step>, tx: nat, b: nat, a: nat, k: nat, gap: Entry)
    returns (gap': Entry, more: seq<Step>)
    requires b < a && IsStep(m, s, n, tx, b, a, k)
    requires Feasible(rest) && Beside(m, Final(rest), tx, b < k <= a, gap) && (k <= b ==> gap == NoEntry)
    ensures more == if b <= k <= a && StepOf(s, tx) then rest else rest + [s]
    ensures Feasible(more) && Beside(n, Final(more), tx, b < k + 1 <= a, gap')
    ensures k + 1 <= b ==> gap' == NoEntry
  {
    if b <= k <= a && StepOf(s, tx) {
      more := rest;
      gap' := DroppedStep(m, s, Final(rest), tx, gap, k == b, k == a);
    } else {
      assert k != b && k != a;
      OthersStep(m, Final(rest), tx, b < k <= a, gap, s);
      OneMoreStep(rest, s);
      gap', more := gap, rest + [s];
    }
  }

  lemma StartsBeside(tx: nat)
    ensures Feasible([]) && Beside(START, Final([]), tx, false, NoEntry)
  {
  }

  lemma NextBeside(steps: seq<Step>, states: seq<Machine>, tx: nat, b: nat, a: nat, k: nat, rest: seq<Step>, gap: Entry)
    returns (gap': Entry, more: seq<Step>)
    requires RolledBack(steps, states, tx, b, a) && k < |steps| && rest == Without(steps, tx, b, a, k)
    requires Feasible(rest) && Beside(states[k], Final(rest), tx, b < k <= a, gap) && (k <= b ==> gap == NoEntry)
    ensures more == Without(steps, tx, b, a, k + 1)
    ensures Feasible(more) && Beside(states[k + 1], Final(more), tx, b < k + 1 <= a, gap')
    ensures k + 1 <= b ==> gap' == NoEntry
  {
    StepOfTheRun(steps, states, tx, b, a, k);
    gap', more := OneStepBeside(states[k], steps[k], states[k + 1], rest, tx, b, a, k, gap);
  }

  lemma {:induction false} RunsBeside(steps: seq<Step>, states: seq<Machine>, tx: nat, b: nat, a: nat, n: nat)
    returns (gap: Entry, rest: seq<Step>)
    requires RolledBack(steps, states, tx, b, a) && n <= |steps|
    ensures rest == Without(steps, tx, b, a, n) && Feasible(rest)
    ensures Beside(states[n], Final(rest), tx, b < n <= a, gap)
    ensures n <= b ==> gap == NoEntry
  {
    if n == 0 {
      StartsBeside(tx);
      gap, rest := NoEntry, [];
    } else {
      gap, rest := RunsBeside(steps, states, tx, b, a, n - 1);
      gap, rest := NextBeside(steps, states, tx, b, a, n - 1, rest, gap);
    }
  }

  /** Leaving out every step of a rolled back transaction, from its Begin on, gives a run of the same machine with the
      same answers, the same rows and the same histories; only an identity value may be missing. */
  lemma AbortLeavesNoTrace(steps: seq<Step>, states: seq<Machine>, tx: nat, b: nat, a: nat)
    requires RolledBack(steps, states, tx, b, a)
    ensures var rest := Without(steps, tx, b, a, |steps|);
      && Behaviour(rest, States(rest))
      && States(rest)[|rest|].done == states[|steps|].done
      && SameStore(states[|steps|].db, States(rest)[|rest|].db)
  {
    var gap, rest := RunsBeside(steps, states, tx, b, a, |steps|);
    FeasibleIsABehaviour(rest);
    ShiftedIsTheSameStore(states[|steps|].db, Final(rest).db, gap);
  }
}
