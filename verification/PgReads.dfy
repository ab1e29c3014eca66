/** What the list queries see along a behaviour of the PostgreSQL store: page walks and polls while
    transactions commit. */
module PgReads {
  import opened Order
  import opened CommentStore
  import opened CommentQueries
  import opened KeysetWalk
  import opened PgRefinement
  import opened PgStore
  import opened SinceCursor
  import opened WalkPages
  import SincePolling

  // ---------------------------------------------------------------- the tables along a behaviour

  lemma {:induction false} AnswersOnlyGrow(steps: seq<Step>, states: seq<Machine>, i: nat, j: nat)
    requires Behaviour(steps, states) && i <= j < |states|
    ensures states[i].done <= states[j].done
  {
    if i < j {
      AnswersOnlyGrow(steps, states, i, j - 1);
    }
  }

  lemma RunsKeep(calls: seq<Call>, more: seq<Call>)
    requires ValidRun(calls) && ValidRun(calls + more)
    ensures Keeps(Replay(calls).discussions, Replay(calls + more).discussions)
  {
    HistoryOnlyGrows(calls, more);
    assert WellFormedRows(Replay(calls)) && WellFormedRows(Replay(calls + more));
  }

  lemma RepresentedRun(steps: seq<Step>, states: seq<Machine>, i: nat)
    requires Behaviour(steps, states) && i < |states|
    ensures ValidRun(Calls(states[i].done)) && states[i].db.discussions == Replay(Calls(states[i].done)).discussions
  {
    Linearizable(steps, states, i);
  }

  lemma CallsOnlyGrow(done: seq<Done>, more: seq<Done>) returns (rest: seq<Call>)
    requires done <= more
    ensures Calls(more) == Calls(done) + rest
  {
    rest := Calls(more)[|done|..];
  }

  /** Committed discussions are never lost or re-anchored. */
  lemma TablesKeep(steps: seq<Step>, states: seq<Machine>, i: nat, j: nat)
    requires Behaviour(steps, states) && i <= j < |states|
    ensures Keeps(states[i].db.discussions, states[j].db.discussions)
  {
    AnswersOnlyGrow(steps, states, i, j);
    RepresentedRun(steps, states, i);
    RepresentedRun(steps, states, j);
    var rest := CallsOnlyGrow(states[i].done, states[j].done);
    RunsKeep(Calls(states[i].done), rest);
  }

  // ---------------------------------------------------------------- walks

  ghost predicate PgReadsPage(tables: seq<Rows>, pages: seq<seq<string>>, f: ListFilter, n: nat)
    requires n < |pages| == |tables|
  {
    && (n > 0 ==> pages[n - 1] != [] && |pages[n - 1]| == f.limit)
    && pages[n] == PgPage(tables[n], PageFilter(pages, f, n))
  }

  /** A walk over PGStore.ListDiscussions. */
  ghost predicate PgWalk(tables: seq<Rows>, pages: seq<seq<string>>, f: ListFilter) {
    |tables| == |pages| > 0 && forall n: nat :: n < |pages| ==> PgReadsPage(tables, pages, f, n)
  }

  lemma PgWalkIsAWalk(tables: seq<Rows>, pages: seq<seq<string>>, f: ListFilter)
    requires WellFormedFilter(f) && PgWalk(tables, pages, f)
    ensures Walk(tables, pages, f)
  {
    forall n: nat | n < |pages| ensures ReadsPage(tables, pages, f, n) {
      assert PgReadsPage(tables, pages, f, n);
      StoresListTheSamePage(tables[n], PageFilter(pages, f, n));
    }
  }

  /** The pages are read at points of the behaviour, later pages not earlier; minted ids are not empty. */
  ghost predicate ReadAlong(states: seq<Machine>, at: seq<nat>, tables: seq<Rows>) {
    && |at| == |tables| && (forall i :: 0 <= i < |at| ==> at[i] < |states|)
    && (forall i, j :: 0 <= i < j < |at| ==> at[i] <= at[j])
    && forall i :: 0 <= i < |at| ==> tables[i] == states[at[i]].db.discussions && "" !in tables[i]
  }

  lemma TablesKeepAlong(steps: seq<Step>, states: seq<Machine>, at: seq<nat>, tables: seq<Rows>)
    requires Behaviour(steps, states) && ReadAlong(states, at, tables) && tables != []
    ensures forall i :: 0 <= i < |tables| ==> Keeps(tables[0], tables[i]) && Keeps(tables[i], tables[|tables| - 1])
  {
    forall i | 0 <= i < |tables| ensures Keeps(tables[0], tables[i]) && Keeps(tables[i], tables[|tables| - 1]) {
      TablesKeep(steps, states, at[0], at[i]);
      TablesKeep(steps, states, at[i], at[|tables| - 1]);
    }
  }

  /** In every run of the PostgreSQL store, where a smaller id may commit late, a finished walk returns every row that
      was committed and matched at its first page exactly once, newest first. */
  lemma PgWalkMissesNothing(steps: seq<Step>, states: seq<Machine>, at: seq<nat>, tables: seq<Rows>,
                            pages: seq<seq<string>>, f: ListFilter)
    requires Behaviour(steps, states) && ReadAlong(states, at, tables)
    requires StableFilter(f) && WellFormedFilter(f) && PgWalk(tables, pages, f) && |pages[|pages| - 1]| < f.limit
    ensures Descending(Concat(pages))
    ensures forall x :: x in PgMatching(tables[0], f) ==> x in Concat(pages)
  {
    PgWalkIsAWalk(tables, pages, f);
    TablesKeepAlong(steps, states, at, tables);
    FinishedWalkMissesNothing(tables, pages, f);
    assert MemMatching(tables[0], f) == PgMatching(tables[0], f);
  }

  lemma TablesAreKeyed(steps: seq<Step>, states: seq<Machine>, at: seq<nat>, tables: seq<Rows>)
    requires Behaviour(steps, states) && ReadAlong(states, at, tables)
    ensures forall i :: 0 <= i < |tables| ==> Keyed(tables[i])
  {
    forall i | 0 <= i < |tables| ensures Keyed(tables[i]) {
      RowsUnderTheirIDs(steps, states, at[i]);
    }
  }

  /** What a finished walk returns besides, under any filter and with any commits between its pages: a row is on the
      page that passes its id or on none, and it is there exactly when it is committed and matches when that page is
      read. */
  lemma PgWalkReturnsExactly(steps: seq<Step>, states: seq<Machine>, at: seq<nat>, tables: seq<Rows>,
                             pages: seq<seq<string>>, f: ListFilter, x: string, k: nat)
    requires Behaviour(steps, states) && ReadAlong(states, at, tables)
    requires WellFormedFilter(f) && PgWalk(tables, pages, f) && |pages[|pages| - 1]| < f.limit && k < |pages|
    ensures x in pages[k] <==> k == PageFor(pages, x, 0) && x in PgMatching(tables[k], f)
  {
    PgWalkIsAWalk(tables, pages, f);
    TablesAreKeyed(steps, states, at, tables);
    ReturnedWithItsPage(tables, pages, f, x, k);
    assert MemMatching(tables[k], f) == PgMatching(tables[k], f);
  }

  /** Full pages cannot go on: together they hold no more rows than match in the last table read. */
  lemma PgWalkTerminates(steps: seq<Step>, states: seq<Machine>, at: seq<nat>, tables: seq<Rows>,
                         pages: seq<seq<string>>, f: ListFilter)
    requires Behaviour(steps, states) && ReadAlong(states, at, tables)
    requires StableFilter(f) && WellFormedFilter(f) && PgWalk(tables, pages, f)
    requires forall k :: 0 <= k < |pages| ==> |pages[k]| == f.limit
    ensures f.limit * |pages| <= |PgMatching(tables[|tables| - 1], f)|
  {
    PgWalkIsAWalk(tables, pages, f);
    TablesAreKeyed(steps, states, at, tables);
    TablesKeepAlong(steps, states, at, tables);
    FullPagesFit(tables, pages, f);
    assert MemMatching(tables[|tables| - 1], f) == PgMatching(tables[|tables| - 1], f);
  }

  // ---------------------------------------------------------------- polls

  /** The transaction writes the discussion. */
  predicate Writes(c: Call, id: string) {
    match c.op
    case CreateDiscussion(_) => c.id == id
    case SetStatus(d, _, _, _) => d == id
    case EditBody(t, _, _, _) => t == OnDiscussion(id)
    case CreateReply(_) => false
  }

  /** A committed change carries the time its transaction began. */
  lemma CommittedTime(m: Machine, tx: nat, id: string)
    requires Inv(m) && Enabled(m, Step.Commit(tx)) && Writes(m.txns[tx].call, id)
    ensures var rows := Do(m, Step.Commit(tx)).db.discussions;
      id in rows && rows[id].updatedAt == m.txns[tx].call.now
  {
    assert TxnOK(m, tx);
    assert WellFormed(Replay(Calls(m.done)));
  }

  /** Exactly which committed changes a poll returns: while the row is not changed again, those whose transaction began
      at a position past the cursor.  A change that began at or before a cursor handed out earlier and committed later
      is never sent, whatever later cursor the client polls with. */
  lemma CommittedChangeIsPolledExactly(steps: seq<Step>, states: seq<Machine>, i: nat, j: nat, f: ListFilter,
                                       cur: Cursor, id: string)
    requires Behaviour(steps, states) && i < j < |states| && i < |steps| && steps[i].Commit?
    requires Writes(states[i].txns[steps[i].tx].call, id)
    requires id in states[j].db.discussions && id in states[i + 1].db.discussions
    requires states[j].db.discussions[id] == states[i + 1].db.discussions[id]
    requires SincePolling.WholeMillis(cur) && SincePolling.Watched(states[j].db.discussions[id], f)
    ensures id in SincePolling.Window(states[j].db.discussions, f, SincePolling.After(cur))
      <==> Before(cur, Cursor(states[i].txns[steps[i].tx].call.now, id))
  {
    InvAlways(steps, states, i);
    CommittedTime(states[i], steps[i].tx, id);
    RowsUnderTheirIDs(steps, states, j);
    SincePolling.WindowIsPositionOrder(states[j].db.discussions, f, cur, id);
  }

  lemma RowsUnderTheirIDs(steps: seq<Step>, states: seq<Machine>, n: nat)
    requires Behaviour(steps, states) && n < |states|
    ensures forall id :: id in states[n].db.discussions ==> states[n].db.discussions[id].discussionID == id
  {
    TablesKeep(steps, states, n, n);
  }
}
