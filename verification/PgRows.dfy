/** What clients of the transactional store sent, in the committed rows, in the answers and in the history. */
module PgRows {
  import opened CommentStore
  import opened CommentRows
  import opened PgStore
  import opened PgRefinement
  import opened PgRuns

  /** What the store changes of a call before it records it: an initial status without a reason gets one. */
  predicate RecordedAs(sent: Call, c: Call) {
    && sent.now == c.now && sent.id == c.id
    && (sent.op.CreateDiscussion? || c.op.CreateDiscussion? ==>
          && sent.op.CreateDiscussion? && c.op.CreateDiscussion?
          && var was, recorded := sent.op.discussionInput, c.op.discussionInput;
             && recorded == was.(initialReason := recorded.initialReason)
             && recorded.initialReason
                == if was.status != "" && was.initialReason == "" then "initial status" else was.initialReason)
    && (!sent.op.CreateDiscussion? ==> c.op == sent.op)
  }

  ghost predicate BeganAs(steps: seq<Step>, b: nat, n: nat, c: Call) {
    b < n && b < |steps| && steps[b].Begin? && RecordedAs(steps[b].call, c)
  }

  /** Every answered call was sent in a Begin step, or refused early as it was sent, and is recorded as it was sent up
      to that reason. */
  lemma AnsweredWasSent(steps: seq<Step>, states: seq<Machine>, n: nat, i: nat)
    requires Behaviour(steps, states) && n < |states| && i < |states[n].done|
    ensures var c := states[n].done[i].call;
      (exists b: nat :: BeganAs(steps, b, n, c)) || (EmptyReasonCall(c) && RefuseEarly(c) in steps)
  {
    CallsWereSent(steps, states, n);
    var c := states[n].done[i].call;
    assert Sent(steps, n, c);
    var b :| 0 <= b < n && b < |steps|
      && ((steps[b].Begin? && Normal(steps[b].call) == c) || steps[b] == RefuseEarly(c));
    if steps[b].Begin? {
      assert BeganAs(steps, b, n, c);
    } else {
      assert Enabled(states[b], steps[b]);
    }
  }

  /** Whatever clients interleave, a committed discussion carries each field of the input some client sent, under its
      own name, with the time and the id of that call. */
  lemma CommittedDiscussionsCarryTheirInput(steps: seq<Step>, states: seq<Machine>, n: nat, id: string)
    returns (b: nat)
    requires Behaviour(steps, states) && n < |states| && id in states[n].db.discussions
    ensures b < n && b < |steps| && steps[b].Begin?
    ensures CreatesDiscussion(steps[b].call, id, states[n].db.discussions[id])
  {
    Linearizable(steps, states, n);
    var calls := Calls(states[n].done);
    var i := EveryDiscussionWasCreated(calls, id);
    AnsweredWasSent(steps, states, n, i);
    b :| BeganAs(steps, b, n, states[n].done[i].call);
  }

  lemma CommittedRepliesCarryTheirInput(steps: seq<Step>, states: seq<Machine>, n: nat, id: string)
    returns (b: nat)
    requires Behaviour(steps, states) && n < |states| && id in states[n].db.replies
    ensures b < n && b < |steps| && steps[b].Begin? && steps[b].call.op.CreateReply? && steps[b].call.id == id
    ensures CarriesReply(states[n].db.replies[id], steps[b].call.op.replyInput, id, steps[b].call.now)
    ensures states[n].db.replies[id].discussionID in states[n].db.discussions
  {
    Linearizable(steps, states, n);
    var calls := Calls(states[n].done);
    var i := EveryReplyWasCreated(calls, id);
    AnsweredWasSent(steps, states, n, i);
    b :| BeganAs(steps, b, n, states[n].done[i].call);
  }

  /** The committed status log of a discussion records its creation, never without a reason, and every accepted change
      in the order they were answered. */
  lemma CommittedEventsRecordEveryChange(steps: seq<Step>, states: seq<Machine>, n: nat, id: string)
    returns (b: nat, input: CreateDiscussionInput)
    requires Behaviour(steps, states) && n < |states| && id in states[n].db.discussions
    ensures ValidRun(Calls(states[n].done))
    ensures b < n && b < |steps| && steps[b].Begin?
    ensures CreatesDiscussion(steps[b].call, id, states[n].db.discussions[id])
    ensures var sent := steps[b].call.op.discussionInput;
      && input == sent.(initialReason := input.initialReason)
      && input.initialReason
         == if sent.status != "" && sent.initialReason == "" then "initial status" else sent.initialReason
    ensures RecordsAll(EventLog(states[n].db, id), input, steps[b].call.now,
                       AcceptedStatuses(Calls(states[n].done), id))
  {
    Linearizable(steps, states, n);
    var calls := Calls(states[n].done);
    var i := EventsRecordEveryChange(calls, id);
    AnsweredWasSent(steps, states, n, i);
    b :| BeganAs(steps, b, n, states[n].done[i].call);
    input := calls[i].op.discussionInput;
  }

  /** A creation is answered with the row it made: each field of the input under its own name, revision 1, both times
      those of the call; a reply is refused exactly when its discussion is missing at that point. */
  lemma CreationsAreAnswered(steps: seq<Step>, states: seq<Machine>, n: nat, i: nat)
    requires Behaviour(steps, states) && n < |states| && i < |states[n].done|
    ensures ValidRun(Calls(states[n].done[..i]))
    ensures var c, answer := states[n].done[i].call, states[n].done[i].outcome;
      c.op.CreateDiscussion? ==>
        && answer.DiscussionRow? && Carries(answer.discussion, c.op.discussionInput, c.id, c.now)
        && answer.discussion.status == c.op.discussionInput.status
        && answer.discussion.body == c.op.discussionInput.body
        && answer.discussion.revision == 1 && answer.discussion.updatedAt == c.now
    ensures var c, answer := states[n].done[i].call, states[n].done[i].outcome;
      c.op.CreateReply? ==>
        if c.op.replyInput.discussionID in Replay(Calls(states[n].done[..i])).discussions then
          && answer.ReplyRow? && CarriesReply(answer.reply, c.op.replyInput, c.id, c.now)
          && answer.reply.body == c.op.replyInput.body
          && answer.reply.revision == 1 && answer.reply.updatedAt == c.now
        else answer == Refused(NotFound)
  {
    Linearizable(steps, states, n);
    var d := states[n].done[i];
    var before := Replay(Calls(states[n].done[..i]));
    assert RightAnswer(d, Apply(before, d.call).1);
    if d.call.op.CreateDiscussion? {
      DiscussionIsCreated(before, d.call);
    } else if d.call.op.CreateReply? {
      ReplyIsCreated(before, d.call);
    }
  }

  // ---------------------------------------------------------------- reply counts

  ghost function CommittedReplies(db: Db, id: string): set<string> {
    set r | r in db.replies && db.replies[r].discussionID == id
  }

  /** Step j reads the discussion again for this call, and counts the replies committed at that moment. */
  ghost predicate CountedAt(steps: seq<Step>, states: seq<Machine>, j: nat, c: Call, d: Discussion) {
    && j < |steps| && j < |states| && steps[j].Reread?
    && steps[j].tx in states[j].txns && states[j].txns[steps[j].tx].call == c
    && d.replyCount == |CommittedReplies(states[j].db, d.discussionID)|
  }

  ghost predicate Counted(steps: seq<Step>, states: seq<Machine>, n: nat, c: Call, answer: Outcome) {
    answer.DiscussionRow? ==> exists j: nat :: j < n && CountedAt(steps, states, j, c, answer.discussion)
  }

  ghost predicate AllCounted(steps: seq<Step>, states: seq<Machine>, n: nat)
    requires n < |states|
  {
    && (forall tx :: tx in states[n].txns && states[n].txns[tx].phase.Answered? ==>
          Counted(steps, states, n, states[n].txns[tx].call, states[n].txns[tx].phase.result))
    && forall i :: 0 <= i < |states[n].done| ==>
         Counted(steps, states, n, states[n].done[i].call, states[n].done[i].outcome)
  }

  lemma CountedStays(steps: seq<Step>, states: seq<Machine>, n: nat, c: Call, answer: Outcome)
    requires Counted(steps, states, n, c, answer)
    ensures Counted(steps, states, n + 1, c, answer)
  {
  }

  ghost predicate HasCount(db: Db, answer: Outcome) {
    answer.DiscussionRow? ==>
      answer.discussion.replyCount == |CommittedReplies(db, answer.discussion.discussionID)|
  }

  /** A transaction's answer appears at Reread, an answered call's at Commit or with a refusal. */
  lemma AnswersOfAStep(m: Machine, s: Step)
    requires Enabled(m, s)
    ensures forall tx :: tx in Do(m, s).txns && Do(m, s).txns[tx].phase.Answered? ==>
              && tx in m.txns && m.txns[tx].call == Do(m, s).txns[tx].call
              && (|| (m.txns[tx].phase.Answered? && m.txns[tx].phase.result == Do(m, s).txns[tx].phase.result)
                  || (s == Reread(tx) && HasCount(m.db, Do(m, s).txns[tx].phase.result)))
    ensures forall i :: 0 <= i < |Do(m, s).done| ==>
              || (i < |m.done| && Do(m, s).done[i] == m.done[i])
              || Do(m, s).done[i].outcome.Refused?
              || (s.Commit? && s.tx in m.txns && m.txns[s.tx].phase.Answered?
                  && Do(m, s).done[i] == Done(m.txns[s.tx].call, m.txns[s.tx].phase.result))
  {
  }

  lemma StepKeepsCounted(steps: seq<Step>, states: seq<Machine>, n: nat)
    requires Behaviour(steps, states) && n + 1 < |states| && AllCounted(steps, states, n)
    ensures AllCounted(steps, states, n + 1)
  {
    var m, m', s := states[n], states[n + 1], steps[n];
    AnswersOfAStep(m, s);
    forall tx | tx in m'.txns && m'.txns[tx].phase.Answered?
      ensures Counted(steps, states, n + 1, m'.txns[tx].call, m'.txns[tx].phase.result)
    {
      var c, answer := m'.txns[tx].call, m'.txns[tx].phase.result;
      if m.txns[tx].phase.Answered? && m.txns[tx].phase.result == answer {
        CountedStays(steps, states, n, c, answer);
      } else if answer.DiscussionRow? {
        assert CountedAt(steps, states, n, c, answer.discussion);
      }
    }
    forall i | 0 <= i < |m'.done| ensures Counted(steps, states, n + 1, m'.done[i].call, m'.done[i].outcome) {
      if !m'.done[i].outcome.Refused? {
        CountedStays(steps, states, n, m'.done[i].call, m'.done[i].outcome);
      }
    }
  }

  lemma {:induction false} AlwaysCounted(steps: seq<Step>, states: seq<Machine>, n: nat)
    requires Behaviour(steps, states) && n < |states|
    ensures AllCounted(steps, states, n)
  {
    if n > 0 {
      AlwaysCounted(steps, states, n - 1);
      StepKeepsCounted(steps, states, n - 1);
    }
  }

  /** Every discussion row answered carries the number of replies that were committed when its transaction read the row
      again. */
  lemma ReplyCountWasCommitted(steps: seq<Step>, states: seq<Machine>, n: nat, i: nat) returns (j: nat)
    requires Behaviour(steps, states) && n < |states| && i < |states[n].done|
    requires states[n].done[i].outcome.DiscussionRow?
    ensures j < n
    ensures CountedAt(steps, states, j, states[n].done[i].call, states[n].done[i].outcome.discussion)
  {
    AlwaysCounted(steps, states, n);
    var d := states[n].done[i];
    assert Counted(steps, states, n, d.call, d.outcome);
    j :| j < n && CountedAt(steps, states, j, d.call, d.outcome.discussion);
  }
}
