/** Where every field of a stored row, an answer and a status event comes from: the call that created or changed it. */
module CommentRows {
  import opened CommentStore
  import opened Options

  // ---------------------------------------------------------------- one call

  /** The fields no later call changes, each under its own name. */
  predicate Carries(d: Discussion, input: CreateDiscussionInput, id: string, now: int) {
    && d.discussionID == id && d.createdAt == now
    && d.paperID == input.paperID && d.parseRevision == input.parseRevision
    && d.pageIdx == input.pageIdx && d.blockIndex == input.blockIndex
    && d.kind == input.kind && d.scope == input.scope
    && d.createdBy == input.createdBy && d.model == input.model
  }

  predicate CarriesReply(r: Reply, input: CreateReplyInput, id: string, now: int) {
    && r.replyID == id && r.createdAt == now
    && r.discussionID == input.discussionID && r.createdBy == input.createdBy && r.model == input.model
  }

  predicate FirstEvent(e: StatusEvent, input: CreateDiscussionInput, now: int) {
    && e.from == "" && e.to == input.status && e.reason == input.initialReason
    && e.actor == input.createdBy && e.at == now
  }

  predicate RecordsStatus(e: StatusEvent, c: Call) {
    c.op.SetStatus? && e.to == c.op.to && e.reason == c.op.reason && e.actor == c.op.actor && e.at == c.now
  }

  /** A new discussion: row and answer carry every field of the input under its own name, at revision 1, with both times
      those of the call, and a first event exactly when there is a status. */
  lemma DiscussionIsCreated(st: State, c: Call)
    requires c.op.CreateDiscussion?
    ensures var (st', answer) := Apply(st, c);
      var input := c.op.discussionInput;
      && answer.DiscussionRow? && st'.discussions == st.discussions[c.id := answer.discussion]
      && Carries(answer.discussion, input, c.id, c.now)
      && answer.discussion.status == input.status && answer.discussion.body == input.body
      && answer.discussion.revision == 1 && answer.discussion.updatedAt == c.now && answer.discussion.replyCount == 0
      && st'.replies == st.replies && st'.discussionEdits == st.discussionEdits && st'.replyEdits == st.replyEdits
      && (input.status == "" ==> st'.events == st.events)
      && (input.status != "" ==>
            && c.id in st'.events && st'.events == st.events[c.id := st'.events[c.id]]
            && |st'.events[c.id]| == 1 && FirstEvent(st'.events[c.id][0], input, c.now))
  {
  }

  /** A new reply likewise; it is refused, and nothing changes, exactly when its discussion is missing. */
  lemma ReplyIsCreated(st: State, c: Call)
    requires c.op.CreateReply?
    ensures var (st', answer) := Apply(st, c);
      var input := c.op.replyInput;
      if input.discussionID !in st.discussions then st' == st && answer == Refused(NotFound)
      else
        && answer.ReplyRow? && st' == st.(replies := st.replies[c.id := answer.reply])
        && CarriesReply(answer.reply, input, c.id, c.now)
        && answer.reply.body == input.body && answer.reply.revision == 1 && answer.reply.updatedAt == c.now
  {
  }

  /** A status change replaces status and time, of this discussion only, and appends one event; any status may follow
      any other, but not without a reason. */
  lemma StatusIsSet(st: State, c: Call)
    requires c.op.SetStatus?
    ensures var (st', answer) := Apply(st, c);
      var id := c.op.discussionID;
      if id !in st.discussions then st' == st && answer == Refused(NotFound)
      else if c.op.reason == "" then st' == st && answer == Refused(EmptyReason)
      else
        var before, after := EventsOf(st, id), EventsOf(st', id);
        && answer.DiscussionRow? && st'.discussions == st.discussions[id := answer.discussion]
        && answer.discussion.status == c.op.to && answer.discussion.updatedAt == c.now
        && answer.discussion == st.discussions[id].(status := c.op.to, updatedAt := c.now)
        && |after| == |before| + 1 && after[..|before|] == before
        && after[|before|].from == st.discussions[id].status && RecordsStatus(after[|before|], c)
        && st' == st.(discussions := st'.discussions, events := st.events[id := after])
  {
  }

  lemma DiscussionBodyIsEdited(st: State, c: Call, id: string)
    requires c.op.EditBody? && c.op.target == OnDiscussion(id)
    ensures var (st', answer) := Apply(st, c);
      if id !in st.discussions then st' == st && answer == Refused(NotFound)
      else if st.discussions[id].revision != c.op.expected then st' == st && answer == Refused(RevisionConflict)
      else
        var d := st.discussions[id];
        && answer == DiscussionRow(d.(body := c.op.newBody, revision := c.op.expected + 1, updatedAt := c.now))
        && st'.discussions == st.discussions[id := answer.discussion]
        && st' == st.(discussions := st'.discussions, discussionEdits := st'.discussionEdits)
        && id in st'.discussionEdits && st'.discussionEdits == st.discussionEdits[id := st'.discussionEdits[id]]
        && st'.discussionEdits[id]
           == EditsOf(st, OnDiscussion(id)) + [BodyRevision(OnDiscussion(id), d.body, c.op.newBody, c.op.editor, c.now)]
  {
  }

  lemma ReplyBodyIsEdited(st: State, c: Call, id: string)
    requires c.op.EditBody? && c.op.target == OnReply(id)
    ensures var (st', answer) := Apply(st, c);
      if id !in st.replies then st' == st && answer == Refused(NotFound)
      else if st.replies[id].revision != c.op.expected then st' == st && answer == Refused(RevisionConflict)
      else
        var r := st.replies[id];
        && answer == ReplyRow(r.(body := c.op.newBody, revision := c.op.expected + 1, updatedAt := c.now))
        && st'.replies == st.replies[id := answer.reply]
        && st' == st.(replies := st'.replies, replyEdits := st'.replyEdits)
        && id in st'.replyEdits && st'.replyEdits == st.replyEdits[id := st'.replyEdits[id]]
        && st'.replyEdits[id]
           == EditsOf(st, OnReply(id)) + [BodyRevision(OnReply(id), r.body, c.op.newBody, c.op.editor, c.now)]
  {
  }

  // ---------------------------------------------------------------- whole runs

  predicate CreatesDiscussion(c: Call, id: string, d: Discussion) {
    c.op.CreateDiscussion? && c.id == id && Carries(d, c.op.discussionInput, id, c.now)
  }

  /** In every run each discussion carries the input of the call that created it. */
  lemma {:induction false} EveryDiscussionWasCreated(calls: seq<Call>, id: string) returns (i: nat)
    requires ValidRun(calls) && id in Replay(calls).discussions
    ensures i < |calls| && CreatesDiscussion(calls[i], id, Replay(calls).discussions[id])
  {
    var before, c := Replay(Init(calls)), Last(calls);
    if id in before.discussions {
      i := EveryDiscussionWasCreated(Init(calls), id);
      EffectOnDiscussion(before, c, id);
    } else {
      i := |calls| - 1;
      NewRowIsCreated(before, c, OnDiscussion(id));
      DiscussionIsCreated(before, c);
    }
  }

  /** Only its creation puts a row into the store. */
  lemma NewRowIsCreated(st: State, c: Call, t: Target)
    requires !Exists(st, t) && Exists(Apply(st, c).0, t)
    ensures Creates(c, t) && Succeeds(st, c)
  {
    match c.op
    case CreateDiscussion(_) =>
    case CreateReply(_) =>
    case SetStatus(_, _, _, _) =>
    case EditBody(u, _, _, _) => match u { case OnDiscussion(_) => case OnReply(_) => }
  }

  /** In every run each reply carries the input of the call that created it, and its discussion is there. */
  lemma {:induction false} EveryReplyWasCreated(calls: seq<Call>, id: string) returns (i: nat)
    requires ValidRun(calls) && id in Replay(calls).replies
    ensures i < |calls| && calls[i].op.CreateReply? && calls[i].id == id
    ensures CarriesReply(Replay(calls).replies[id], calls[i].op.replyInput, id, calls[i].now)
    ensures Replay(calls).replies[id].discussionID in Replay(calls).discussions
  {
    var before, c := Replay(Init(calls)), Last(calls);
    if id in before.replies {
      i := EveryReplyWasCreated(Init(calls), id);
      EffectOnReply(before, c, id);
    } else {
      i := |calls| - 1;
      NewRowIsCreated(before, c, OnReply(id));
      ReplyIsCreated(before, c);
    }
  }

  /** The accepted status changes of a discussion, in the order they were accepted. */
  ghost function AcceptedStatuses(calls: seq<Call>, id: string): seq<Call>
    requires ValidRun(calls)
  {
    if calls == [] then []
    else
      var c := Last(calls);
      var before := AcceptedStatuses(Init(calls), id);
      if AcceptsStatus(Replay(Init(calls)), c, id) then before + [c] else before
  }

  /** The log is the first event, if the input had a status, and then the record of each accepted change. */
  ghost predicate RecordsAll(log: seq<StatusEvent>, input: CreateDiscussionInput, now: int, accepted: seq<Call>) {
    var first := if input.status == "" then 0 else 1;
    && |log| == first + |accepted|
    && (first == 1 ==> FirstEvent(log[0], input, now))
    && forall k :: 0 <= k < |accepted| ==> RecordsStatus(log[first + k], accepted[k])
  }

  lemma RecordsOneMore(log: seq<StatusEvent>, input: CreateDiscussionInput, now: int, accepted: seq<Call>,
                       e: StatusEvent, c: Call)
    requires RecordsAll(log, input, now, accepted) && RecordsStatus(e, c)
    ensures RecordsAll(log + [e], input, now, accepted + [c])
  {
  }

  /** In every run a discussion's status log records its creation and every accepted change, in order, and nothing
      else: with the status, reason, actor and time of each call. */
  lemma {:induction false} EventsRecordEveryChange(calls: seq<Call>, id: string) returns (i: nat)
    requires ValidRun(calls) && id in Replay(calls).discussions
    ensures i < |calls| && CreatesDiscussion(calls[i], id, Replay(calls).discussions[id])
    ensures RecordsAll(EventsOf(Replay(calls), id), calls[i].op.discussionInput, calls[i].now,
                       AcceptedStatuses(calls, id))
  {
    var before, c := Replay(Init(calls)), Last(calls);
    if id in before.discussions {
      i := EventsRecordEveryChange(Init(calls), id);
      EffectOnDiscussion(before, c, id);
      EffectOnStatus(before, c, id);
      if AcceptsStatus(before, c, id) {
        var log := EventsOf(before, id);
        RecordsOneMore(log, calls[i].op.discussionInput, calls[i].now, AcceptedStatuses(Init(calls), id),
                       StatusEvent(before.discussions[id].status, c.op.to, c.op.reason, c.op.actor, c.now), c);
      }
    } else {
      i := |calls| - 1;
      NewRowIsCreated(before, c, OnDiscussion(id));
      DiscussionIsCreated(before, c);
      NoStatusBeforeCreation(Init(calls), id);
    }
  }

  lemma {:induction false} NoStatusBeforeCreation(calls: seq<Call>, id: string)
    requires ValidRun(calls) && id !in Replay(calls).discussions
    ensures AcceptedStatuses(calls, id) == [] && EventsOf(Replay(calls), id) == []
  {
    if calls != [] {
      var before := Replay(Init(calls));
      if id in before.discussions {
        EffectOnStatus(before, Last(calls), id);
      }
      NoStatusBeforeCreation(Init(calls), id);
    }
  }

  /** The call, if accepted, writes the row of this discussion. */
  predicate Touches(c: Call, id: string) {
    || (c.op.CreateDiscussion? && c.id == id)
    || (c.op.SetStatus? && c.op.discussionID == id)
    || (c.op.EditBody? && c.op.target == OnDiscussion(id))
  }

  /** The last accepted call that wrote the row of this discussion. */
  ghost function LastChange(calls: seq<Call>, id: string): Option<Call>
    requires ValidRun(calls)
  {
    if calls == [] then None
    else if Touches(Last(calls), id) && Succeeds(Replay(Init(calls)), Last(calls)) then Some(Last(calls))
    else LastChange(Init(calls), id)
  }

  lemma UntouchedRowStays(st: State, c: Call, id: string)
    requires id in st.discussions && NewID(st, c) && !(Touches(c, id) && Succeeds(st, c))
    ensures id in Apply(st, c).0.discussions && Apply(st, c).0.discussions[id] == st.discussions[id]
  {
    match c.op
    case CreateDiscussion(_) =>
    case CreateReply(_) =>
    case SetStatus(_, _, _, _) =>
    case EditBody(u, _, _, _) => match u { case OnDiscussion(_) => case OnReply(_) => }
  }

  lemma TouchedRowIsStamped(st: State, c: Call, id: string)
    requires Touches(c, id) && Succeeds(st, c)
    ensures id in Apply(st, c).0.discussions && Apply(st, c).0.discussions[id].updatedAt == c.now
  {
  }

  /** In every run a discussion's update time is that of the last accepted call that wrote its row. */
  lemma {:induction false} UpdatedAtIsLastChange(calls: seq<Call>, id: string)
    requires ValidRun(calls) && id in Replay(calls).discussions
    ensures LastChange(calls, id).Some?
    ensures Replay(calls).discussions[id].updatedAt == LastChange(calls, id).value.now
  {
    var before, c := Replay(Init(calls)), Last(calls);
    if Touches(c, id) && Succeeds(before, c) {
      TouchedRowIsStamped(before, c, id);
    } else {
      if id !in before.discussions {
        NewRowIsCreated(before, c, OnDiscussion(id));
      }
      UntouchedRowStays(before, c, id);
      UpdatedAtIsLastChange(Init(calls), id);
    }
  }

  // ---------------------------------------------------------------- reply counts

  ghost predicate AddsReply(st: State, c: Call, id: string) {
    c.op.CreateReply? && c.op.replyInput.discussionID == id && Succeeds(st, c)
  }

  /** How many replies to a discussion were accepted. */
  ghost function RepliesAccepted(calls: seq<Call>, id: string): nat
    requires ValidRun(calls)
  {
    if calls == [] then 0
    else
      RepliesAccepted(Init(calls), id) + if AddsReply(Replay(Init(calls)), Last(calls), id) then 1 else 0
  }

  lemma RepliesOfAStep(st: State, c: Call, id: string)
    requires NewID(st, c)
    ensures RepliesOf(Apply(st, c).0, id) == RepliesOf(st, id) + if AddsReply(st, c, id) then {c.id} else {}
    ensures c.op.CreateReply? ==> c.id !in RepliesOf(st, id)
  {
    match c.op
    case CreateDiscussion(_) =>
    case CreateReply(_) =>
    case SetStatus(_, _, _, _) =>
    case EditBody(u, _, _, _) => match u { case OnDiscussion(_) => case OnReply(_) => }
  }

  /** In every run the number of replies a listed discussion shows is the number of replies to it that were accepted. */
  lemma {:induction false} ReplyCountIsRepliesAccepted(calls: seq<Call>, id: string)
    requires ValidRun(calls)
    ensures |RepliesOf(Replay(calls), id)| == RepliesAccepted(calls, id)
    ensures id in Replay(calls).discussions ==>
      WithReplyCount(Replay(calls), id).replyCount == RepliesAccepted(calls, id)
  {
    if calls != [] {
      ReplyCountIsRepliesAccepted(Init(calls), id);
      RepliesOfAStep(Replay(Init(calls)), Last(calls), id);
    }
  }
}
