/** History read from the two stores: PostgreSQL orders the edits of a discussion and its replies by
    identity value, MemStore sorts them by time. */
module PgHistory {
  import opened Sorting
  import opened CommentStore
  import opened PgStore
  import opened PgRefinement
  import opened PgRuns
  import MemStore

  function InHistory(bodies: set<Target>): BodyRevision -> bool {
    (r: BodyRevision) => r.target in bodies
  }

  /** PGStore.History's revisions, where `bodies` are the discussion and its replies. */
  function Revisions(db: Db, bodies: set<Target>): seq<BodyRevision> {
    Below(db.revisions.rows, db.revisions.next, InHistory(bodies), Itself())
  }

  lemma {:induction false} CountBelow(rows: map<nat, BodyRevision>, n: nat, bodies: set<Target>, e: BodyRevision)
    ensures multiset(Below(rows, n, InHistory(bodies), Itself()))[e] ==
            if e.target in bodies then multiset(Below(rows, n, OnTarget(e.target), Itself()))[e] else 0
  {
    if n > 0 {
      CountBelow(rows, n - 1, bodies, e);
    }
  }

  /** Both stores list the same edits the same number of times, and the same status events in the same order. */
  lemma HistoryHasTheSameEdits(db: Db, st: State, id: string)
    requires Represents(db, st)
    ensures EventsOf(st, id) == EventLog(db, id)
    ensures MemStore.CountsExactly(st, Revisions(db, MemStore.Belonging(st, id)), MemStore.Belonging(st, id))
  {
    var bodies := MemStore.Belonging(st, id);
    forall e: BodyRevision
      ensures multiset(Revisions(db, bodies))[e]
          == (if e.target in bodies then multiset(EditsOf(st, e.target))[e] else 0)
    {
      CountBelow(db.revisions.rows, db.revisions.next, bodies, e);
      assert EditsOf(st, e.target) == RevisionLog(db, e.target);
    }
  }

  // ---------------------------------------------------------------- the two orders

  /** The selected rows carry times that do not fall with their identity values. */
  ghost predicate ValuesInTimeOrder(rows: map<nat, BodyRevision>, n: nat, bodies: set<Target>) {
    forall k: nat, k': nat ::
      k < k' < n && k in rows && k' in rows && rows[k].target in bodies && rows[k'].target in bodies
      ==> rows[k].at <= rows[k'].at
  }

  lemma {:induction false} BelowMembers(rows: map<nat, BodyRevision>, n: nat, bodies: set<Target>, e: BodyRevision)
    ensures e in Below(rows, n, InHistory(bodies), Itself())
      <==> exists k: nat :: k < n && k in rows && rows[k].target in bodies && rows[k] == e
  {
    if n > 0 {
      BelowMembers(rows, n - 1, bodies, e);
    }
  }

  lemma SortedSnoc(s: seq<BodyRevision>, e: BodyRevision)
    ensures SortedBy(s + [e], MemStore.EarlierRevision)
      <==> SortedBy(s, MemStore.EarlierRevision) && forall x :: x in s ==> x.at <= e.at
  {
    var t := s + [e];
    if SortedBy(t, MemStore.EarlierRevision) {
      forall i, j | 0 <= i < j < |s| ensures !MemStore.EarlierRevision(s[j], s[i]) {
        assert !MemStore.EarlierRevision(t[j], t[i]);
      }
      forall x | x in s ensures x.at <= e.at {
        var i :| 0 <= i < |s| && s[i] == x;
        assert !MemStore.EarlierRevision(t[|s|], t[i]);
      }
    }
  }

  lemma {:induction false} BelowIsSortedExactly(rows: map<nat, BodyRevision>, n: nat, bodies: set<Target>)
    ensures SortedBy(Below(rows, n, InHistory(bodies), Itself()), MemStore.EarlierRevision)
      <==> ValuesInTimeOrder(rows, n, bodies)
  {
    if n > 0 {
      var before := Below(rows, n - 1, InHistory(bodies), Itself());
      BelowIsSortedExactly(rows, n - 1, bodies);
      if n - 1 in rows && rows[n - 1].target in bodies {
        SortedSnoc(before, rows[n - 1]);
        forall x ensures x in before
          <==> exists k: nat :: k < n - 1 && k in rows && rows[k].target in bodies && rows[k] == x
        {
          BelowMembers(rows, n - 1, bodies, x);
        }
      }
    }
  }

  /** Step i wrote a history row of these bodies that is committed by state n. */
  ghost predicate CommittedEdit(steps: seq<Step>, states: seq<Machine>, n: nat, i: nat, bodies: set<Target>)
    requires n < |states|
  {
    exists k: nat, r: BodyRevision ::
      LogsAt(steps, states, i, k, r) && k in states[n].db.revisions.rows && r.target in bodies
  }

  /** The time of the call whose InsertHistory is step i, taken when its transaction began. */
  function Stamp(steps: seq<Step>, states: seq<Machine>, i: nat): int
    requires i < |steps| && i < |states| && steps[i].InsertHistory? && steps[i].tx in states[i].txns
  {
    states[i].txns[steps[i].tx].call.now
  }

  ghost predicate StampsInOrder(steps: seq<Step>, states: seq<Machine>, n: nat, bodies: set<Target>)
    requires Behaviour(steps, states) && n < |states|
  {
    forall i: nat, j: nat ::
      i < j < n && CommittedEdit(steps, states, n, i, bodies) && CommittedEdit(steps, states, n, j, bodies)
      ==> Stamp(steps, states, i) <= Stamp(steps, states, j)
  }

  lemma RowOfLog(steps: seq<Step>, states: seq<Machine>, n: nat, i: nat, k: nat, r: BodyRevision)
    requires Behaviour(steps, states) && n < |states| && LogsAt(steps, states, i, k, r)
    requires k in states[n].db.revisions.rows
    ensures states[n].db.revisions.rows[k] == r && k < states[n].db.revisions.next && i < n
  {
    RowsWereLogged(steps, states, n);
    var row := states[n].db.revisions.rows[k];
    var i': nat :| i' < n && LogsAt(steps, states, i', k, row);
    ValuesAscend(steps, states, i, k, r, i', k, row);
    ValuesAscend(steps, states, i', k, row, i, k, r);
    LoggedValue(steps, states, i', k, row);
    NextIsMonotone(steps, states, i' + 1, n);
  }

  lemma LogOfRow(steps: seq<Step>, states: seq<Machine>, n: nat, k: nat, bodies: set<Target>) returns (i: nat)
    requires Behaviour(steps, states) && n < |states|
    requires k in states[n].db.revisions.rows && states[n].db.revisions.rows[k].target in bodies
    ensures i < n && LogsAt(steps, states, i, k, states[n].db.revisions.rows[k])
        && CommittedEdit(steps, states, n, i, bodies)
  {
    RowsWereLogged(steps, states, n);
    i :| i < n && LogsAt(steps, states, i, k, states[n].db.revisions.rows[k]);
  }

  lemma ValuesAreStamps(steps: seq<Step>, states: seq<Machine>, n: nat, bodies: set<Target>)
    requires Behaviour(steps, states) && n < |states|
    ensures ValuesInTimeOrder(states[n].db.revisions.rows, states[n].db.revisions.next, bodies)
      <==> StampsInOrder(steps, states, n, bodies)
  {
    var rows, next := states[n].db.revisions.rows, states[n].db.revisions.next;
    if ValuesInTimeOrder(rows, next, bodies) {
      forall i: nat, j: nat | i < j < n && CommittedEdit(steps, states, n, i, bodies)
        && CommittedEdit(steps, states, n, j, bodies)
        ensures Stamp(steps, states, i) <= Stamp(steps, states, j)
      {
        StampsOfTwo(steps, states, n, i, j, bodies);
      }
    }
    if StampsInOrder(steps, states, n, bodies) {
      forall k: nat, k': nat | k < k' < next && k in rows && k' in rows && rows[k].target in bodies
        && rows[k'].target in bodies
        ensures rows[k].at <= rows[k'].at
      {
        var i := LogOfRow(steps, states, n, k, bodies);
        var j := LogOfRow(steps, states, n, k', bodies);
        ValuesAscend(steps, states, i, k, rows[k], j, k', rows[k']);
        LoggedValue(steps, states, i, k, rows[k]);
        LoggedValue(steps, states, j, k', rows[k']);
      }
    }
  }

  lemma StampsOfTwo(steps: seq<Step>, states: seq<Machine>, n: nat, i: nat, j: nat, bodies: set<Target>)
    requires Behaviour(steps, states) && n < |states| && i < j < n
    requires CommittedEdit(steps, states, n, i, bodies) && CommittedEdit(steps, states, n, j, bodies)
    requires ValuesInTimeOrder(states[n].db.revisions.rows, states[n].db.revisions.next, bodies)
    ensures Stamp(steps, states, i) <= Stamp(steps, states, j)
  {
    var k: nat, r: BodyRevision :| LogsAt(steps, states, i, k, r) && k in states[n].db.revisions.rows
      && r.target in bodies;
    var k': nat, r': BodyRevision :| LogsAt(steps, states, j, k', r') && k' in states[n].db.revisions.rows
      && r'.target in bodies;
    RowOfLog(steps, states, n, i, k, r);
    RowOfLog(steps, states, n, j, k', r');
    ValuesAscend(steps, states, i, k, r, j, k', r');
    LoggedValue(steps, states, i, k, r);
    LoggedValue(steps, states, j, k', r');
  }

  ghost predicate DistinctTimes(revs: seq<BodyRevision>) {
    forall i, j :: 0 <= i < j < |revs| ==> revs[i].at != revs[j].at
  }

  /** In every run, PostgreSQL's history is one MemStore may answer exactly when, for every two committed edits of the
      discussion and its replies, the one whose history row was inserted first did not begin later. */
  lemma PgHistoryIsMemHistoryExactly(steps: seq<Step>, states: seq<Machine>, n: nat, id: string)
    requires Behaviour(steps, states) && n < |states| && ValidRun(Calls(states[n].done))
    ensures var st := Replay(Calls(states[n].done));
      var bodies := MemStore.Belonging(st, id);
      MemStore.IsHistory(st, id, Revisions(states[n].db, bodies)) <==> StampsInOrder(steps, states, n, bodies)
  {
    Linearizable(steps, states, n);
    var db, st := states[n].db, Replay(Calls(states[n].done));
    var bodies := MemStore.Belonging(st, id);
    HistoryHasTheSameEdits(db, st, id);
    BelowIsSortedExactly(db.revisions.rows, db.revisions.next, bodies);
    ValuesAreStamps(steps, states, n, bodies);
  }

  /** When no two edits carry the same time, it is then the only history MemStore may answer. */
  lemma HistoriesAgreeExactlyInBeginOrder(steps: seq<Step>, states: seq<Machine>, n: nat, id: string,
                                          mem: seq<BodyRevision>)
    requires Behaviour(steps, states) && n < |states|
    requires ValidRun(Calls(states[n].done)) && MemStore.IsHistory(Replay(Calls(states[n].done)), id, mem)
    requires DistinctTimes(Revisions(states[n].db, MemStore.Belonging(Replay(Calls(states[n].done)), id)))
    ensures var bodies := MemStore.Belonging(Replay(Calls(states[n].done)), id);
      mem == Revisions(states[n].db, bodies) <==> StampsInOrder(steps, states, n, bodies)
  {
    PgHistoryIsMemHistoryExactly(steps, states, n, id);
    var st := Replay(Calls(states[n].done));
    var pg := Revisions(states[n].db, MemStore.Belonging(st, id));
    if MemStore.IsHistory(st, id, pg) {
      DistinctTimesLeaveOneHistory(st, id, pg, mem);
    }
  }

  lemma DistinctTimesLeaveOneHistory(st: State, id: string, a: seq<BodyRevision>, b: seq<BodyRevision>)
    requires MemStore.IsHistory(st, id, a) && MemStore.IsHistory(st, id, b) && DistinctTimes(a)
    ensures a == b
  {
    forall e: BodyRevision ensures multiset(a)[e] == multiset(b)[e] {}
    forall i, j | 0 <= i < j < |a| ensures MemStore.EarlierRevision(a[i], a[j]) {
      assert !MemStore.EarlierRevision(a[j], a[i]);
    }
    SortedPermutationIsUnique(a, b, MemStore.EarlierRevision);
  }

  /** The selected rows with ids from k up to n. */
  function Between(rows: map<nat, BodyRevision>, k: nat, n: nat, bodies: set<Target>): seq<BodyRevision>
    requires k <= n
    decreases n - k
  {
    if k == n then []
    else
      var before := Between(rows, k, n - 1, bodies);
      if n - 1 in rows && rows[n - 1].target in bodies then before + [rows[n - 1]] else before
  }

  lemma {:induction false} BelowSplits(rows: map<nat, BodyRevision>, k: nat, n: nat, bodies: set<Target>)
    requires k <= n
    ensures Below(rows, n, InHistory(bodies), Itself()) ==
            Below(rows, k, InHistory(bodies), Itself()) + Between(rows, k, n, bodies)
    decreases n - k
  {
    if k < n {
      BelowSplits(rows, k, n - 1, bodies);
    }
  }

  lemma {:induction false} FirstBetween(rows: map<nat, BodyRevision>, k: nat, n: nat, bodies: set<Target>)
    requires k <= n
    ensures Between(rows, k, n, bodies) == [] ==> forall j :: k <= j < n && j in rows ==> rows[j].target !in bodies
    ensures Between(rows, k, n, bodies) != [] ==>
              exists j :: k <= j < n && j in rows && rows[j].target in bodies
                && rows[j] == Between(rows, k, n, bodies)[0]
    decreases n - k
  {
    if k < n {
      FirstBetween(rows, k, n - 1, bodies);
    }
  }

  /** Per body the log only grows at its end, but the combined history need not: a commit appends to it
      exactly when no later identity value of the same history has been committed already. */
  lemma CombinedHistoryGrowsAtItsEndExactly(db: Db, k: nat, revision: BodyRevision, bodies: set<Target>)
    requires TablesOK(db) && Pending(db, RevisionEntry(k, revision)) && revision.target in bodies
    ensures Revisions(db, bodies) <= Revisions(Append(db, RevisionEntry(k, revision)), bodies) <==>
            !exists j :: j in db.revisions.rows && db.revisions.rows[j].target in bodies && k < j
  {
    var rows, n := db.revisions.rows, db.revisions.next;
    var rows': map<nat, BodyRevision> := rows[k := revision];
    var sel, val := InHistory(bodies), Itself();
    BelowSplits(rows, k + 1, n, bodies);
    BelowSplits(rows', k + 1, n, bodies);
    BelowIgnores(rows, k, revision, k, sel, val);
    FirstBetween(rows, k + 1, n, bodies);
    var head, later, later' := Below(rows, k, sel, val), Between(rows, k + 1, n, bodies),
      Between(rows', k + 1, n, bodies);
    var before, after := head + later, head + [revision] + later';
    assert Revisions(db, bodies) == before;
    assert Revisions(Append(db, RevisionEntry(k, revision)), bodies) == after;
    if later != [] {
      assert later[0] != revision;
      assert before[|head|] == later[0] && after[|head|] == revision;
    } else {
      assert before == head && after[..|head|] == head;
    }
  }

  /** In every run the commit of an edit appends to the history it belongs to exactly when every edit of that history
      committed before it had also inserted its history row before it. */
  lemma CommitAppendsExactly(steps: seq<Step>, states: seq<Machine>, i: nat, bodies: set<Target>)
    requires Behaviour(steps, states) && i < |steps| && steps[i].Commit?
    requires var e := EntryOf(states[i].txns[steps[i].tx]); e.RevisionEntry? && e.revision.target in bodies
    ensures var e := EntryOf(states[i].txns[steps[i].tx]);
      exists l: nat :: l < i && LogsAt(steps, states, l, e.k, e.revision)
        && (Revisions(states[i].db, bodies) <= Revisions(states[i + 1].db, bodies)
            <==> forall j: nat :: CommittedEdit(steps, states, i, j, bodies) ==> j < l)
  {
    var m, tx := states[i], steps[i].tx;
    var e := EntryOf(m.txns[tx]);
    InvAlways(steps, states, i);
    RowsWereLogged(steps, states, i);
    var l: nat :| l < i && LogsAt(steps, states, l, e.k, e.revision);
    CommitAppendsToTables(m, tx, bodies);
    NoLaterEditExactly(steps, states, i, l, e.k, e.revision, bodies);
  }

  lemma CommitAppendsToTables(m: Machine, tx: nat, bodies: set<Target>)
    requires Inv(m) && Enabled(m, Step.Commit(tx)) && EntryOf(m.txns[tx]).RevisionEntry?
    requires EntryOf(m.txns[tx]).revision.target in bodies
    ensures EntryOf(m.txns[tx]).k !in m.db.revisions.rows
    ensures Revisions(m.db, bodies) <= Revisions(Do(m, Step.Commit(tx)).db, bodies)
      <==> !exists j :: j in m.db.revisions.rows && m.db.revisions.rows[j].target in bodies && EntryOf(m.txns[tx]).k < j
  {
    assert TxnOK(m, tx) && Pending(m.db, EntryOf(m.txns[tx]));
    var e, stored := EntryOf(m.txns[tx]), Store(m.db, m.txns[tx].phase.row);
    assert stored.revisions == m.db.revisions && stored.statusEvents == m.db.statusEvents;
    CombinedHistoryGrowsAtItsEndExactly(stored, e.k, e.revision, bodies);
  }

  /** Later identity values are later InsertHistory steps. */
  lemma NoLaterEditExactly(steps: seq<Step>, states: seq<Machine>, i: nat, l: nat, k: nat, r: BodyRevision,
                           bodies: set<Target>)
    requires Behaviour(steps, states) && i < |states| && LogsAt(steps, states, l, k, r)
    requires k !in states[i].db.revisions.rows
    ensures (!exists x :: x in states[i].db.revisions.rows && states[i].db.revisions.rows[x].target in bodies && k < x)
      <==> forall j: nat :: CommittedEdit(steps, states, i, j, bodies) ==> j < l
  {
    var rows := states[i].db.revisions.rows;
    forall x | x in rows && rows[x].target in bodies && k < x
      ensures exists j: nat :: CommittedEdit(steps, states, i, j, bodies) && l < j
    {
      var j := LogOfRow(steps, states, i, x, bodies);
      ValuesAscend(steps, states, l, k, r, j, x, rows[x]);
    }
    forall j: nat | CommittedEdit(steps, states, i, j, bodies) && j >= l
      ensures exists x :: x in rows && rows[x].target in bodies && k < x
    {
      var x: nat, r': BodyRevision :| LogsAt(steps, states, j, x, r') && x in rows && r'.target in bodies;
      RowOfLog(steps, states, i, j, x, r');
      ValuesAscend(steps, states, l, k, r, j, x, r');
      ValuesAscend(steps, states, j, x, r', l, k, r);
    }
  }
}
