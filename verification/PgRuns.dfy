/** Behaviours given by their steps, and where the calls, history rows and answers of a behaviour come from. */
module PgRuns {
  import opened CommentStore
  import opened PgStore
  import opened PgRefinement

  // ---------------------------------------------------------------- runs given by their steps

  function Go(m: Machine, s: Step): Machine {
    if Enabled(m, s) then Do(m, s) else m
  }

  /** The machine after these steps. */
  function Final(steps: seq<Step>): Machine {
    if steps == [] then START else Go(Final(steps[..|steps| - 1]), steps[|steps| - 1])
  }

  function States(steps: seq<Step>): (states: seq<Machine>)
    ensures |states| == |steps| + 1
  {
    seq(|steps| + 1, i requires 0 <= i <= |steps| => Final(steps[..i]))
  }

  ghost predicate Feasible(steps: seq<Step>) {
    forall i :: 0 <= i < |steps| ==> Enabled(Final(steps[..i]), steps[i])
  }

  lemma NextState(steps: seq<Step>, i: nat)
    requires i < |steps| && Enabled(Final(steps[..i]), steps[i])
    ensures Final(steps[..i + 1]) == Do(Final(steps[..i]), steps[i])
  {
    var more := steps[..i + 1];
    assert more[..|more| - 1] == steps[..i] && more[|more| - 1] == steps[i];
  }

  lemma FeasibleIsABehaviour(steps: seq<Step>)
    requires Feasible(steps)
    ensures Behaviour(steps, States(steps)) && States(steps)[|steps|] == Final(steps)
  {
    var states := States(steps);
    assert steps[..0] == [] && steps[..|steps|] == steps;
    forall i | 0 <= i < |steps| ensures Enabled(states[i], steps[i]) && states[i + 1] == Do(states[i], steps[i]) {
      NextState(steps, i);
    }
  }

  lemma OneMoreStep(steps: seq<Step>, s: Step)
    requires Feasible(steps) && Enabled(Final(steps), s)
    ensures Feasible(steps + [s]) && Final(steps + [s]) == Do(Final(steps), s)
  {
    var more := steps + [s];
    assert more[..|steps|] == steps;
    forall i | 0 <= i < |more| ensures Enabled(Final(more[..i]), more[i]) {
      assert i < |steps| ==> more[..i] == steps[..i];
    }
  }

  // ---------------------------------------------------------------- calls

  /** The call was sent: some Begin or early refusal before step n carries it. */
  ghost predicate Sent(steps: seq<Step>, n: nat, c: Call) {
    exists b :: 0 <= b < n && b < |steps|
      && ((steps[b].Begin? && Normal(steps[b].call) == c) || steps[b] == RefuseEarly(c))
  }

  lemma SentStays(steps: seq<Step>, n: nat, m: nat, c: Call)
    requires n <= m && Sent(steps, n, c)
    ensures Sent(steps, m, c)
  {
  }

  ghost predicate AllSent(steps: seq<Step>, n: nat, m: Machine) {
    && (forall tx :: tx in m.txns ==> Sent(steps, n, m.txns[tx].call))
    && forall i :: 0 <= i < |m.done| ==> Sent(steps, n, m.done[i].call)
  }

  lemma StepKeepsSent(steps: seq<Step>, n: nat, m: Machine)
    requires n < |steps| && Enabled(m, steps[n]) && AllSent(steps, n, m)
    ensures AllSent(steps, n + 1, Do(m, steps[n]))
  {
    var m' := Do(m, steps[n]);
    forall tx | tx in m'.txns ensures Sent(steps, n + 1, m'.txns[tx].call) {
      if tx in m.txns && m'.txns[tx].call == m.txns[tx].call {
        SentStays(steps, n, n + 1, m.txns[tx].call);
      } else {
        assert steps[n].Begin?;
      }
    }
    forall i | 0 <= i < |m'.done| ensures Sent(steps, n + 1, m'.done[i].call) {
      if i < |m.done| {
        SentStays(steps, n, n + 1, m.done[i].call);
      } else if steps[n].RefuseEarly? {
        assert steps[n] == RefuseEarly(m'.done[i].call);
      } else {
        assert m'.done[i].call == m.txns[steps[n].tx].call;
        SentStays(steps, n, n + 1, m'.done[i].call);
      }
    }
  }

  /** Every running transaction and every answer belongs to a call that was sent. */
  lemma {:induction false} CallsWereSent(steps: seq<Step>, states: seq<Machine>, n: nat)
    requires Behaviour(steps, states) && n < |states|
    ensures AllSent(steps, n, states[n])
  {
    if n > 0 {
      CallsWereSent(steps, states, n - 1);
      StepKeepsSent(steps, n - 1, states[n - 1]);
    }
  }

  /** What the routes send: values the tables accept and a reason for every status. */
  predicate WellFormedCall(c: Call) {
    && Constraints(c.op)
    && (c.op.CreateDiscussion? && c.op.discussionInput.status != "" ==> c.op.discussionInput.initialReason != "")
    && (c.op.SetStatus? ==> c.op.reason != "")
  }

  lemma WellFormedCallsAreRecordedAsSent(c: Call)
    requires WellFormedCall(c)
    ensures Normal(c) == c
  {
  }

  /** When clients send only well-formed calls, the calls answered, and so the calls of the abstract run, are exactly
      calls they sent. */
  lemma WellFormedRunsAnswerWhatWasSent(steps: seq<Step>, states: seq<Machine>, n: nat, i: nat)
    requires Behaviour(steps, states) && n < |states| && i < |states[n].done|
    requires forall b :: 0 <= b < |steps| ==> steps[b].Begin? ==> WellFormedCall(steps[b].call)
    ensures exists b :: 0 <= b < n && b < |steps|
              && ((steps[b].Begin? && steps[b].call == states[n].done[i].call)
                || steps[b] == RefuseEarly(states[n].done[i].call))
  {
    CallsWereSent(steps, states, n);
    var c := states[n].done[i].call;
    assert Sent(steps, n, c);
    var b :| 0 <= b < n && b < |steps|
      && ((steps[b].Begin? && Normal(steps[b].call) == c) || steps[b] == RefuseEarly(c));
    if steps[b].Begin? {
      WellFormedCallsAreRecordedAsSent(steps[b].call);
    }
  }

  // ---------------------------------------------------------------- history rows

  /** Step i is the InsertHistory that drew identity value k for this revision. */
  ghost predicate LogsAt(steps: seq<Step>, states: seq<Machine>, i: nat, k: nat, revision: BodyRevision) {
    && i < |steps| && i + 1 < |states| && steps[i].InsertHistory? && steps[i].tx in states[i + 1].txns
    && EntryOf(states[i + 1].txns[steps[i].tx]) == RevisionEntry(k, revision)
  }

  ghost predicate Logged(steps: seq<Step>, states: seq<Machine>, n: nat, k: nat, revision: BodyRevision) {
    exists i: nat :: i < n && LogsAt(steps, states, i, k, revision)
  }

  ghost predicate AllLogged(steps: seq<Step>, states: seq<Machine>, n: nat)
    requires n < |states|
  {
    var m := states[n];
    && (forall tx :: tx in m.txns && EntryOf(m.txns[tx]).RevisionEntry? ==>
          Logged(steps, states, n, EntryOf(m.txns[tx]).k, EntryOf(m.txns[tx]).revision))
    && forall k :: k in m.db.revisions.rows ==> Logged(steps, states, n, k, m.db.revisions.rows[k])
  }

  lemma LoggedStays(steps: seq<Step>, states: seq<Machine>, n: nat, k: nat, revision: BodyRevision)
    requires Logged(steps, states, n, k, revision)
    ensures Logged(steps, states, n + 1, k, revision)
  {
  }

  /** A transaction's entry changes only at InsertHistory and InsertRow, and rows appear only by commit. */
  lemma EntriesAndRowsOfAStep(m: Machine, s: Step)
    requires Enabled(m, s)
    ensures forall tx :: tx in Do(m, s).txns && EntryOf(Do(m, s).txns[tx]).RevisionEntry? ==>
              || (tx in m.txns && EntryOf(m.txns[tx]) == EntryOf(Do(m, s).txns[tx]))
              || (s.InsertHistory? && s.tx == tx)
    ensures forall k :: k in Do(m, s).db.revisions.rows ==>
              || (k in m.db.revisions.rows && m.db.revisions.rows[k] == Do(m, s).db.revisions.rows[k])
              || (s.Commit? && s.tx in m.txns
                && EntryOf(m.txns[s.tx]) == RevisionEntry(k, Do(m, s).db.revisions.rows[k]))
  {
  }

  lemma {:induction false} RowsWereLogged(steps: seq<Step>, states: seq<Machine>, n: nat)
    requires Behaviour(steps, states) && n < |states|
    ensures AllLogged(steps, states, n)
  {
    if n > 0 {
      RowsWereLogged(steps, states, n - 1);
      var m, s := states[n - 1], steps[n - 1];
      EntriesAndRowsOfAStep(m, s);
      forall tx | tx in states[n].txns && EntryOf(states[n].txns[tx]).RevisionEntry?
        ensures Logged(steps, states, n, EntryOf(states[n].txns[tx]).k, EntryOf(states[n].txns[tx]).revision)
      {
        var e := EntryOf(states[n].txns[tx]);
        if tx in m.txns && EntryOf(m.txns[tx]) == e {
          LoggedStays(steps, states, n - 1, e.k, e.revision);
        } else {
          assert LogsAt(steps, states, n - 1, e.k, e.revision);
        }
      }
      forall k | k in states[n].db.revisions.rows ensures Logged(steps, states, n, k, states[n].db.revisions.rows[k]) {
        LoggedStays(steps, states, n - 1, k, states[n].db.revisions.rows[k]);
      }
    }
  }

  lemma NextOnlyGrows(m: Machine, s: Step)
    requires Enabled(m, s)
    ensures m.db.revisions.next <= Do(m, s).db.revisions.next
  {
  }

  lemma {:induction false} NextIsMonotone(steps: seq<Step>, states: seq<Machine>, i: nat, j: nat)
    requires Behaviour(steps, states) && i <= j < |states|
    ensures states[i].db.revisions.next <= states[j].db.revisions.next
  {
    if i < j {
      NextIsMonotone(steps, states, i, j - 1);
      NextGrowsAt(steps, states, j - 1);
    }
  }

  lemma NextGrowsAt(steps: seq<Step>, states: seq<Machine>, i: nat)
    requires Behaviour(steps, states) && i < |steps|
    ensures states[i].db.revisions.next <= states[i + 1].db.revisions.next
  {
    NextOnlyGrows(states[i], steps[i]);
  }

  /** What an InsertHistory step draws and records. */
  lemma LoggedValue(steps: seq<Step>, states: seq<Machine>, i: nat, k: nat, revision: BodyRevision)
    requires Behaviour(steps, states) && LogsAt(steps, states, i, k, revision)
    ensures k == states[i].db.revisions.next && states[i + 1].db.revisions.next == k + 1
    ensures steps[i].tx in states[i].txns && revision.at == states[i].txns[steps[i].tx].call.now
  {
  }

  /** Identity values ascend with the InsertHistory steps that drew them. */
  lemma ValuesAscend(steps: seq<Step>, states: seq<Machine>, i: nat, k: nat, r: BodyRevision, j: nat, k': nat,
                     r': BodyRevision)
    requires Behaviour(steps, states) && LogsAt(steps, states, i, k, r) && LogsAt(steps, states, j, k', r')
    ensures i < j <==> k < k'
  {
    LoggedValue(steps, states, i, k, r);
    LoggedValue(steps, states, j, k', r');
    if i < j {
      NextIsMonotone(steps, states, i + 1, j);
    } else if j < i {
      NextIsMonotone(steps, states, j + 1, i);
    }
  }
}
