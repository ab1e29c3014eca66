/** The comment domain as one abstract store: every mutating call is one atomic transition.
    MemStore and the PostgreSQL store are both proved to implement these transitions. */
module CommentStore {
  /** `kind` is the source's Type field.  Stored rows carry replyCount 0; reads fill it in. */
  datatype Discussion = Discussion(
    discussionID: string, paperID: string, parseRevision: string, pageIdx: int, blockIndex: int,
    kind: string, scope: string, status: string, body: string, createdBy: string, model: string,
    revision: int, replyCount: int, createdAt: int, updatedAt: int)

  datatype Reply = Reply(
    replyID: string, discussionID: string, body: string, createdBy: string, model: string,
    revision: int, createdAt: int, updatedAt: int)

  datatype StatusEvent = StatusEvent(from: string, to: string, reason: string, actor: string, at: int)

  datatype Target = OnDiscussion(id: string) | OnReply(id: string)

  datatype BodyRevision = BodyRevision(target: Target, oldBody: string, newBody: string, editor: string, at: int)

  datatype CreateDiscussionInput = CreateDiscussionInput(
    paperID: string, parseRevision: string, pageIdx: int, blockIndex: int, kind: string, scope: string,
    status: string, initialReason: string, body: string, createdBy: string, model: string)

  datatype CreateReplyInput = CreateReplyInput(discussionID: string, body: string, createdBy: string, model: string)

  datatype Error = NotFound | RevisionConflict | EmptyReason

  datatype Outcome = DiscussionRow(discussion: Discussion) | ReplyRow(reply: Reply) | Refused(error: Error)

  datatype Op =
    | CreateDiscussion(discussionInput: CreateDiscussionInput)
    | CreateReply(replyInput: CreateReplyInput)
    | SetStatus(discussionID: string, to: string, reason: string, actor: string)
    | EditBody(target: Target, expected: int, newBody: string, editor: string)

  /** One call: what was asked, the server time it was stamped with, and the id minted for it. */
  datatype Call = Call(op: Op, now: int, id: string)

  datatype State = State(
    discussions: map<string, Discussion>,
    replies: map<string, Reply>,
    discussionEdits: map<string, seq<BodyRevision>>,
    replyEdits: map<string, seq<BodyRevision>>,
    events: map<string, seq<StatusEvent>>)

  const EMPTY := State(map[], map[], map[], map[], map[])

  predicate Exists(st: State, t: Target) {
    match t
    case OnDiscussion(id) => id in st.discussions
    case OnReply(id) => id in st.replies
  }

  function BodyOf(st: State, t: Target): string
    requires Exists(st, t)
  {
    match t
    case OnDiscussion(id) => st.discussions[id].body
    case OnReply(id) => st.replies[id].body
  }

  function RevisionOf(st: State, t: Target): int
    requires Exists(st, t)
  {
    match t
    case OnDiscussion(id) => st.discussions[id].revision
    case OnReply(id) => st.replies[id].revision
  }

  /** A missing entry of a history map reads as an empty log. */
  function Entries<T>(m: map<string, seq<T>>, id: string): seq<T> {
    if id in m then m[id] else []
  }

  function EditsOf(st: State, t: Target): seq<BodyRevision> {
    match t
    case OnDiscussion(id) => Entries(st.discussionEdits, id)
    case OnReply(id) => Entries(st.replyEdits, id)
  }

  function EventsOf(st: State, id: string): seq<StatusEvent> {
    Entries(st.events, id)
  }

  ghost predicate AllOn(log: seq<BodyRevision>, t: Target) {
    forall i :: 0 <= i < |log| ==> log[i].target == t
  }

  /** Rows are filed under their own ids, replies belong to discussions, no history lacks its row. */
  ghost predicate WellFormed(st: State) {
    WellFormedRows(st) && WellFormedLogs(st)
  }

  ghost predicate WellFormedRows(st: State) {
    && (forall id :: id in st.discussions ==>
      st.discussions[id].discussionID == id && st.discussions[id].replyCount == 0)
    && (forall id :: id in st.replies ==> st.replies[id].replyID == id && st.replies[id].discussionID in st.discussions)
  }

  ghost predicate WellFormedLogs(st: State) {
    && (forall id :: id in st.discussionEdits ==>
      id in st.discussions && AllOn(st.discussionEdits[id], OnDiscussion(id)))
    && (forall id :: id in st.replyEdits ==> id in st.replies && AllOn(st.replyEdits[id], OnReply(id)))
    && (forall id :: id in st.events ==> id in st.discussions)
  }

  function NewDiscussion(input: CreateDiscussionInput, now: int, id: string): Discussion {
    Discussion(id, input.paperID, input.parseRevision, input.pageIdx, input.blockIndex, input.kind, input.scope,
               input.status, input.body, input.createdBy, input.model, 1, 0, now, now)
  }

  function NewReply(input: CreateReplyInput, now: int, id: string): Reply {
    Reply(id, input.discussionID, input.body, input.createdBy, input.model, 1, now, now)
  }

  function InitialEvents(input: CreateDiscussionInput, now: int): seq<StatusEvent> {
    if input.status == "" then [] else [StatusEvent("", input.status, input.initialReason, input.createdBy, now)]
  }

  /** The row of `t` with a new body and the next revision, and its edit log with one more entry. */
  function WithBody(st: State, t: Target, newBody: string, editor: string, now: int): State
    requires Exists(st, t)
  {
    var log := EditsOf(st, t) + [BodyRevision(t, BodyOf(st, t), newBody, editor, now)];
    match t
    case OnDiscussion(id) =>
      var d := st.discussions[id];
      st.(discussions := st.discussions[id := d.(body := newBody, revision := d.revision + 1, updatedAt := now)],
          discussionEdits := st.discussionEdits[id := log])
    case OnReply(id) =>
      var r := st.replies[id];
      st.(replies := st.replies[id := r.(body := newBody, revision := r.revision + 1, updatedAt := now)],
          replyEdits := st.replyEdits[id := log])
  }

  function RowOf(st: State, t: Target): Outcome
    requires Exists(st, t)
  {
    match t
    case OnDiscussion(id) => DiscussionRow(st.discussions[id])
    case OnReply(id) => ReplyRow(st.replies[id])
  }

  function Apply(st: State, c: Call): (State, Outcome) {
    match c.op
    case CreateDiscussion(input) =>
      var d := NewDiscussion(input, c.now, c.id);
      (st.(discussions := st.discussions[c.id := d],
           events := if input.status == "" then st.events else st.events[c.id := InitialEvents(input, c.now)]),
       DiscussionRow(d))
    case CreateReply(input) =>
      if input.discussionID !in st.discussions then (st, Refused(NotFound))
      else
        var r := NewReply(input, c.now, c.id);
        (st.(replies := st.replies[c.id := r]), ReplyRow(r))
    case SetStatus(id, to, reason, actor) =>
      if id !in st.discussions then (st, Refused(NotFound))
      else if reason == "" then (st, Refused(EmptyReason))
      else
        var d := st.discussions[id];
        var d' := d.(status := to, updatedAt := c.now);
        (st.(discussions := st.discussions[id := d'],
             events := st.events[id := EventsOf(st, id) + [StatusEvent(d.status, to, reason, actor, c.now)]]),
         DiscussionRow(d'))
    case EditBody(t, expected, newBody, editor) =>
      if !Exists(st, t) then (st, Refused(NotFound))
      else if RevisionOf(st, t) != expected then (st, Refused(RevisionConflict))
      else
        var st' := WithBody(st, t, newBody, editor, c.now);
        (st', RowOf(st', t))
  }

  /** The id a creating call brings is not in use. */
  predicate NewID(st: State, c: Call) {
    && (c.op.CreateDiscussion? ==> c.id !in st.discussions)
    && (c.op.CreateReply? ==> c.id !in st.replies)
  }

  // ---------------------------------------------------------------- runs

  function Init(calls: seq<Call>): seq<Call>
    requires calls != []
  {
    calls[..|calls| - 1]
  }

  function Last(calls: seq<Call>): Call
    requires calls != []
  {
    calls[|calls| - 1]
  }

  /** A run of calls from the empty store in which every creating call minted an unused id. */
  ghost predicate ValidRun(calls: seq<Call>)
    decreases |calls|, 0
  {
    calls == [] || (ValidRun(Init(calls)) && NewID(Replay(Init(calls)), Last(calls)))
  }

  ghost function Replay(calls: seq<Call>): (st: State)
    requires ValidRun(calls)
    ensures WellFormed(st)
    decreases |calls|, 1
  {
    if calls == [] then EMPTY
    else
      var before := Replay(Init(calls));
      StepKeepsWellFormed(before, Last(calls));
      Apply(before, Last(calls)).0
  }

  lemma StepKeepsRows(st: State, c: Call)
    requires WellFormedRows(st)
    ensures WellFormedRows(Apply(st, c).0)
  {
    if c.op.EditBody? {
      if Apply(st, c).0 != st {
        EditKeepsRows(st, c);
      }
    } else if c.op.SetStatus? {
      StatusKeepsRows(st, c);
    }
  }

  lemma StatusKeepsRows(st: State, c: Call)
    requires WellFormedRows(st) && c.op.SetStatus?
    ensures WellFormedRows(Apply(st, c).0)
  {
  }

  lemma EditKeepsRows(st: State, c: Call)
    requires WellFormedRows(st) && c.op.EditBody? && Exists(st, c.op.target)
    ensures WellFormedRows(WithBody(st, c.op.target, c.op.newBody, c.op.editor, c.now))
  {
    match c.op.target { case OnDiscussion(id) => case OnReply(id) => }
  }

  lemma StepKeepsLogs(st: State, c: Call)
    requires WellFormedLogs(st)
    ensures WellFormedLogs(Apply(st, c).0)
  {
    if c.op.EditBody? && Apply(st, c).0 != st {
      EditKeepsLogs(st, c);
    }
  }

  lemma EditKeepsLogs(st: State, c: Call)
    requires WellFormedLogs(st) && c.op.EditBody? && Exists(st, c.op.target)
    ensures WellFormedLogs(WithBody(st, c.op.target, c.op.newBody, c.op.editor, c.now))
  {
    var t := c.op.target;
    assert AllOn(EditsOf(st, t), t);
    match t { case OnDiscussion(id) => case OnReply(id) => }
  }

  lemma StepKeepsWellFormed(st: State, c: Call)
    requires WellFormed(st)
    ensures WellFormed(Apply(st, c).0)
  {
    StepKeepsRows(st, c);
    StepKeepsLogs(st, c);
  }

  predicate Succeeds(st: State, c: Call) {
    !Apply(st, c).1.Refused?
  }

  /** The accepted body edits of `t`, in the order they were accepted. */
  ghost function AcceptedEdits(calls: seq<Call>, t: Target): seq<Call>
    requires ValidRun(calls)
  {
    if calls == [] then []
    else
      var c := Last(calls);
      var before := AcceptedEdits(Init(calls), t);
      if AcceptsEdit(Replay(Init(calls)), c, t) then before + [c] else before
  }

  predicate Creates(c: Call, t: Target) {
    match t
    case OnDiscussion(id) => c.op.CreateDiscussion? && c.id == id
    case OnReply(id) => c.op.CreateReply? && c.id == id
  }

  function InputBody(op: Op): string {
    match op
    case CreateDiscussion(input) => input.body
    case CreateReply(input) => input.body
    case _ => ""
  }

  /** The body `t` was created with. */
  ghost function OriginalBody(calls: seq<Call>, t: Target): string
    requires ValidRun(calls)
  {
    if calls == [] then ""
    else if Creates(Last(calls), t) && Succeeds(Replay(Init(calls)), Last(calls)) then InputBody(Last(calls).op)
    else OriginalBody(Init(calls), t)
  }

  /** Replaying the edit log on `body`; defined only when each entry starts where the last ended. */
  function ReplayBody(body: string, log: seq<BodyRevision>): (r: (bool, string)) {
    if log == [] then (true, body)
    else
      var before := ReplayBody(body, log[..|log| - 1]);
      var e := log[|log| - 1];
      (before.0 && e.oldBody == before.1, e.newBody)
  }

  /** Replaying the status log from "no status". */
  function ReplayStatus(log: seq<StatusEvent>): (r: (bool, string)) {
    if log == [] then (true, "")
    else
      var before := ReplayStatus(log[..|log| - 1]);
      var e := log[|log| - 1];
      (before.0 && e.from == before.1, e.to)
  }

  lemma ReplayBodyAppend(body: string, log: seq<BodyRevision>, e: BodyRevision)
    ensures ReplayBody(body, log + [e]) == (ReplayBody(body, log).0 && e.oldBody == ReplayBody(body, log).1, e.newBody)
  {
    assert (log + [e])[..|log|] == log;
  }

  lemma ReplayStatusAppend(log: seq<StatusEvent>, e: StatusEvent)
    ensures ReplayStatus(log + [e]) == (ReplayStatus(log).0 && e.from == ReplayStatus(log).1, e.to)
  {
    assert (log + [e])[..|log|] == log;
  }

  ghost predicate RecordsCall(e: BodyRevision, c: Call, t: Target) {
    c.op.EditBody? && e == BodyRevision(t, e.oldBody, c.op.newBody, c.op.editor, c.now)
  }

  ghost predicate AcceptsEdit(st: State, c: Call, t: Target) {
    c.op.EditBody? && c.op.target == t && Succeeds(st, c)
  }

  function EditEntry(st: State, c: Call, t: Target): BodyRevision
    requires c.op.EditBody? && Exists(st, t)
  {
    BodyRevision(t, BodyOf(st, t), c.op.newBody, c.op.editor, c.now)
  }

  /** An accepted edit of a body used the current revision, bumps it by one and appends one log entry. */
  lemma AcceptedEdit(st: State, c: Call, t: Target)
    requires AcceptsEdit(st, c, t)
    ensures var st' := Apply(st, c).0;
            && Exists(st, t) && Exists(st', t)
            && RevisionOf(st, t) == c.op.expected && RevisionOf(st', t) == c.op.expected + 1
            && BodyOf(st', t) == c.op.newBody && EditsOf(st', t) == EditsOf(st, t) + [EditEntry(st, c, t)]
  {
    match t { case OnDiscussion(id) => case OnReply(id) => }
  }

  /** Every other call leaves that body, its revision and its log alone. */
  lemma OtherCallsKeepBody(st: State, c: Call, t: Target)
    requires NewID(st, c) && Exists(st, t) && !AcceptsEdit(st, c, t)
    ensures var st' := Apply(st, c).0;
            && Exists(st', t) && !Creates(c, t)
            && RevisionOf(st', t) == RevisionOf(st, t) && BodyOf(st', t) == BodyOf(st, t)
            && EditsOf(st', t) == EditsOf(st, t)
  {
    if c.op.EditBody? {
      OtherEditKeepsBody(st, c, t);
    } else {
      match t { case OnDiscussion(id) => case OnReply(id) => }
    }
  }

  lemma OtherEditKeepsBody(st: State, c: Call, t: Target)
    requires c.op.EditBody? && Exists(st, t) && !AcceptsEdit(st, c, t)
    ensures var st' := Apply(st, c).0;
            && Exists(st', t)
            && RevisionOf(st', t) == RevisionOf(st, t) && BodyOf(st', t) == BodyOf(st, t)
            && EditsOf(st', t) == EditsOf(st, t)
  {
    if Apply(st, c).0 != st {
      match c.op.target { case OnDiscussion(id) => case OnReply(id) => }
    }
  }

  lemma EffectOnBody(st: State, c: Call, t: Target)
    requires NewID(st, c) && Exists(st, t)
    ensures var st' := Apply(st, c).0;
            Exists(st', t) && !Creates(c, t) &&
            if AcceptsEdit(st, c, t) then
              && RevisionOf(st, t) == c.op.expected && RevisionOf(st', t) == c.op.expected + 1
              && BodyOf(st', t) == c.op.newBody && EditsOf(st', t) == EditsOf(st, t) + [EditEntry(st, c, t)]
            else
              RevisionOf(st', t) == RevisionOf(st, t) && BodyOf(st', t) == BodyOf(st, t)
                && EditsOf(st', t) == EditsOf(st, t)
  {
    if AcceptsEdit(st, c, t) {
      AcceptedEdit(st, c, t);
    } else {
      OtherCallsKeepBody(st, c, t);
    }
  }

  lemma EffectOfCreation(st: State, c: Call, t: Target)
    requires WellFormed(st) && NewID(st, c) && !Exists(st, t) && Exists(Apply(st, c).0, t)
    ensures var st' := Apply(st, c).0;
            Creates(c, t) && Succeeds(st, c) && !c.op.EditBody?
            && RevisionOf(st', t) == 1 && BodyOf(st', t) == InputBody(c.op) && EditsOf(st', t) == []
  {
    match c.op
    case CreateDiscussion(input) =>
    case CreateReply(input) =>
    case SetStatus(id, to, reason, actor) =>
    case EditBody(u, expected, newBody, editor) =>
  }

  /** `accepted` is a gapless compare-and-swap history: it used expected revisions 1, 2, 3, ...
      with no gap and no repeat, each call left exactly one log entry, and the log replayed on the
      original body gives the current body. */
  ghost predicate Gapless(accepted: seq<Call>, log: seq<BodyRevision>, original: string, t: Target, revision: int,
                          body: string) {
    && revision == 1 + |accepted|
    && |log| == |accepted|
    && (forall i :: 0 <= i < |accepted| ==> accepted[i].op.EditBody? && accepted[i].op.expected == i + 1)
    && (forall i :: 0 <= i < |accepted| ==> RecordsCall(log[i], accepted[i], t))
    && ReplayBody(original, log) == (true, body)
  }

  lemma GaplessExtends(accepted: seq<Call>, log: seq<BodyRevision>, original: string, t: Target, revision: int,
                       body: string, c: Call)
    requires Gapless(accepted, log, original, t, revision, body)
    requires c.op.EditBody? && c.op.expected == revision
    ensures Gapless(accepted + [c], log + [BodyRevision(t, body, c.op.newBody, c.op.editor, c.now)], original, t,
                    revision + 1, c.op.newBody)
  {
    ReplayBodyAppend(original, log, BodyRevision(t, body, c.op.newBody, c.op.editor, c.now));
  }

  /** Compare-and-swap is exact over any run, for every body. */
  lemma {:induction false} EditsAreGapless(calls: seq<Call>, t: Target)
    requires ValidRun(calls) && Exists(Replay(calls), t)
    ensures var st := Replay(calls);
            Gapless(AcceptedEdits(calls, t), EditsOf(st, t), OriginalBody(calls, t), t, RevisionOf(st, t),
              BodyOf(st, t))
  {
    var before, c := Replay(Init(calls)), Last(calls);
    if Exists(before, t) {
      EffectOnBody(before, c, t);
      EditsAreGapless(Init(calls), t);
      if AcceptsEdit(before, c, t) {
        GaplessExtends(AcceptedEdits(Init(calls), t), EditsOf(before, t), OriginalBody(calls, t), t,
                       RevisionOf(before, t), BodyOf(before, t), c);
      }
    } else {
      EffectOfCreation(before, c, t);
      NoEditsBeforeCreation(Init(calls), t);
    }
  }

  lemma {:induction false} NoEditsBeforeCreation(calls: seq<Call>, t: Target)
    requires ValidRun(calls) && !Exists(Replay(calls), t)
    ensures AcceptedEdits(calls, t) == []
  {
    if calls != [] {
      var before := Replay(Init(calls));
      if Exists(before, t) {
        EffectOnBody(before, Last(calls), t);
      }
      NoEditsBeforeCreation(Init(calls), t);
    }
  }

  ghost predicate AcceptsStatus(st: State, c: Call, id: string) {
    c.op.SetStatus? && c.op.discussionID == id && Succeeds(st, c)
  }

  /** What one call does to the status of one discussion. */
  lemma EffectOnStatus(st: State, c: Call, id: string)
    requires NewID(st, c) && id in st.discussions
    ensures var st' := Apply(st, c).0;
            id in st'.discussions &&
            if AcceptsStatus(st, c, id) then
              && st'.discussions[id].status == c.op.to
              && EventsOf(st', id)
                 == EventsOf(st, id)
                    + [StatusEvent(st.discussions[id].status, c.op.to, c.op.reason, c.op.actor, c.now)]
            else
              st'.discussions[id].status == st.discussions[id].status && EventsOf(st', id) == EventsOf(st, id)
  {
    match c.op
    case CreateDiscussion(input) =>
    case CreateReply(input) =>
    case SetStatus(other, to, reason, actor) =>
    case EditBody(t, expected, newBody, editor) =>
      match t { case OnDiscussion(other) => case OnReply(other) => }
  }

  lemma InitialStatus(st: State, c: Call, id: string)
    requires WellFormed(st) && id !in st.discussions && id in Apply(st, c).0.discussions
    ensures var st' := Apply(st, c).0;
            ReplayStatus(EventsOf(st', id)) == (true, st'.discussions[id].status)
  {
    match c.op
    case CreateDiscussion(input) =>
    case CreateReply(input) =>
    case SetStatus(other, to, reason, actor) =>
    case EditBody(t, expected, newBody, editor) =>
      match t { case OnDiscussion(other) => case OnReply(other) => }
  }

  /** Status events chain from "no status" to the current status. */
  lemma {:induction false} StatusEventsChain(calls: seq<Call>, id: string)
    requires ValidRun(calls) && id in Replay(calls).discussions
    ensures ReplayStatus(EventsOf(Replay(calls), id)) == (true, Replay(calls).discussions[id].status)
  {
    var before, c := Replay(Init(calls)), Last(calls);
    if id !in before.discussions {
      InitialStatus(before, c, id);
    } else {
      EffectOnStatus(before, c, id);
      StatusEventsChain(Init(calls), id);
      if AcceptsStatus(before, c, id) {
        ReplayStatusAppend(EventsOf(before, id),
                           StatusEvent(before.discussions[id].status, c.op.to, c.op.reason, c.op.actor, c.now));
      }
    }
  }

  predicate SameAnchor(d: Discussion, e: Discussion) {
    && d.discussionID == e.discussionID && d.paperID == e.paperID && d.parseRevision == e.parseRevision
    && d.pageIdx == e.pageIdx && d.blockIndex == e.blockIndex && d.kind == e.kind && d.scope == e.scope
    && d.createdBy == e.createdBy && d.model == e.model && d.createdAt == e.createdAt
  }

  predicate SameOrigin(r: Reply, s: Reply) {
    && r.replyID == s.replyID && r.discussionID == s.discussionID
    && r.createdBy == s.createdBy && r.model == s.model && r.createdAt == s.createdAt
  }

  /** What a later store may differ in from an earlier one: rows are never lost or re-anchored,
      and histories only grow at the end. */
  ghost predicate Extends(early: State, late: State)
  {
    && (forall id :: id in early.discussions ==> KeepsDiscussion(early, late, id))
    && (forall id :: id in early.replies ==> KeepsReply(early, late, id))
    && (forall t :: Exists(early, t) ==> KeepsEdits(early, late, t))
  }

  ghost predicate KeepsDiscussion(early: State, late: State, id: string)
    requires id in early.discussions
  {
    && id in late.discussions && SameAnchor(early.discussions[id], late.discussions[id])
    && EventsOf(early, id) <= EventsOf(late, id)
  }

  ghost predicate KeepsReply(early: State, late: State, id: string)
    requires id in early.replies
  {
    id in late.replies && SameOrigin(early.replies[id], late.replies[id])
  }

  ghost predicate KeepsEdits(early: State, late: State, t: Target)
  {
    Exists(late, t) && EditsOf(early, t) <= EditsOf(late, t)
  }

  lemma {:induction false} HistoryOnlyGrows(calls: seq<Call>, more: seq<Call>)
    requires ValidRun(calls) && ValidRun(calls + more)
    ensures Extends(Replay(calls), Replay(calls + more))
  {
    if more == [] {
      assert calls + more == calls;
    } else {
      assert Init(calls + more) == calls + Init(more);
      HistoryOnlyGrows(calls, Init(more));
      var mid := Replay(calls + Init(more));
      StepExtends(mid, Last(calls + more));
      ExtendsIsTransitive(Replay(calls), mid, Replay(calls + more));
    }
  }

  lemma ExtendsIsTransitive(a: State, b: State, c: State)
    requires Extends(a, b) && Extends(b, c)
    ensures Extends(a, c)
  {
    forall id | id in a.discussions ensures KeepsDiscussion(a, c, id) {
      assert KeepsDiscussion(a, b, id) && KeepsDiscussion(b, c, id);
    }
    forall id | id in a.replies ensures KeepsReply(a, c, id) {
      assert KeepsReply(a, b, id) && KeepsReply(b, c, id);
    }
    forall t | Exists(a, t) ensures KeepsEdits(a, c, t) {
      assert KeepsEdits(a, b, t) && KeepsEdits(b, c, t);
    }
  }

  lemma StepExtends(st: State, c: Call)
    requires NewID(st, c)
    ensures Extends(st, Apply(st, c).0)
  {
    var st' := Apply(st, c).0;
    forall t | Exists(st, t) ensures KeepsEdits(st, st', t) {
      EffectOnBody(st, c, t);
    }
    forall id | id in st.discussions ensures KeepsDiscussion(st, st', id) {
      EffectOnDiscussion(st, c, id);
    }
    forall id | id in st.replies ensures KeepsReply(st, st', id) {
      EffectOnReply(st, c, id);
    }
  }

  lemma EffectOnDiscussion(st: State, c: Call, id: string)
    requires NewID(st, c) && id in st.discussions
    ensures KeepsDiscussion(st, Apply(st, c).0, id)
  {
    if c.op.EditBody? {
      EditKeepsDiscussion(st, c, id);
    } else if c.op.SetStatus? {
      StatusKeepsDiscussion(st, c, id);
    }
  }

  lemma StatusKeepsDiscussion(st: State, c: Call, id: string)
    requires c.op.SetStatus? && id in st.discussions
    ensures KeepsDiscussion(st, Apply(st, c).0, id)
  {
    assert EventsOf(st, id) <= EventsOf(Apply(st, c).0, id);
  }

  lemma EditKeepsDiscussion(st: State, c: Call, id: string)
    requires c.op.EditBody? && id in st.discussions
    ensures KeepsDiscussion(st, Apply(st, c).0, id)
  {
    match c.op.target { case OnDiscussion(other) => case OnReply(other) => }
  }

  lemma EffectOnReply(st: State, c: Call, id: string)
    requires NewID(st, c) && id in st.replies
    ensures KeepsReply(st, Apply(st, c).0, id)
  {
    match c.op
    case CreateDiscussion(input) =>
    case CreateReply(input) =>
    case SetStatus(other, to, reason, actor) =>
    case EditBody(t, expected, newBody, editor) =>
      match t { case OnDiscussion(other) => case OnReply(other) => }
  }

  // ---------------------------------------------------------------- reads

  ghost function RepliesOf(st: State, id: string): set<string> {
    set r | r in st.replies && st.replies[r].discussionID == id
  }

  ghost function WithReplyCount(st: State, id: string): Discussion
    requires id in st.discussions
  {
    st.discussions[id].(replyCount := |RepliesOf(st, id)|)
  }
}
