/** The in-memory store: five maps updated in place under one mutex.  The *Discussion and *Reply
    pointers never leave the store (every result is a copy), so the maps hold row values. */
module MemStore {
  import opened Order
  import opened Sorting
  import opened CommentStore
  import opened CommentQueries
  import opened CommentRows
  import opened Options

  datatype Result<T> = Ok(value: T) | Err(error: Error)

  datatype Trail = Trail(revisions: seq<BodyRevision>, events: seq<StatusEvent>)

  function NewerID(a: Discussion, b: Discussion): bool {
    Less(b.discussionID, a.discussionID)
  }

  function OlderReply(a: Reply, b: Reply): bool {
    Less(a.replyID, b.replyID)
  }

  function EarlierRevision(a: BodyRevision, b: BodyRevision): bool {
    a.at < b.at
  }

  lemma NewerIDIsStrictWeakOrder()
    ensures StrictWeakOrder(NewerID)
  {
    StrictTotalOrder();
  }

  lemma OlderReplyIsStrictWeakOrder()
    ensures StrictWeakOrder(OlderReply)
  {
    StrictTotalOrder();
  }

  class MemStore {
    var discussions: map<string, Discussion>
    var replies: map<string, Reply>
    var bodyRevisions: map<string, seq<BodyRevision>>
    var statusEvents: map<string, seq<StatusEvent>>
    var replyRevisions: map<string, seq<BodyRevision>>

    /** The abstract store these maps stand for. */
    ghost function View(): State
      reads this
    {
      State(discussions, replies, bodyRevisions, replyRevisions, statusEvents)
    }

    ghost predicate Valid()
      reads this
    {
      WellFormed(View())
    }

    constructor ()
      ensures Valid() && View() == EMPTY
    {
      discussions := map[];
      replies := map[];
      bodyRevisions := map[];
      statusEvents := map[];
      replyRevisions := map[];
    }

    /** `now` and `id` stand for nowFn() and newID("cd_"), both read under the mutex. */
    method CreateDiscussion(input: CreateDiscussionInput, now: int, id: string) returns (d: Discussion)
      requires Valid() && NewID(View(), Call(Op.CreateDiscussion(input), now, id))
      modifies this
      ensures Valid()
      ensures (View(), DiscussionRow(d)) == Apply(old(View()), Call(Op.CreateDiscussion(input), now, id))
      ensures discussions == old(discussions)[id := d] && Carries(d, input, id, now)
      ensures d.status == input.status && d.body == input.body && d.revision == 1 && d.updatedAt == now
    {
      StepKeepsWellFormed(View(), Call(Op.CreateDiscussion(input), now, id));
      d := Discussion(id, input.paperID, input.parseRevision, input.pageIdx, input.blockIndex, input.kind, input.scope,
                      input.status, input.body, input.createdBy, input.model, 1, 0, now, now);
      discussions := discussions[id := d];
      if input.status != "" {
        statusEvents := statusEvents[id := Entries(statusEvents, id) +
                                           [StatusEvent("", input.status, input.initialReason, input.createdBy, now)]];
        assert statusEvents[id] == InitialEvents(input, now);
      }
    }

    method CreateReply(input: CreateReplyInput, now: int, id: string) returns (res: Result<Reply>)
      requires Valid() && NewID(View(), Call(Op.CreateReply(input), now, id))
      modifies this
      ensures Valid()
      ensures (View(), ReplyOutcome(res)) == Apply(old(View()), Call(Op.CreateReply(input), now, id))
      ensures res == Err(NotFound) <==> input.discussionID !in old(discussions)
      ensures res.Ok? ==> replies == old(replies)[id := res.value] && CarriesReply(res.value, input, id, now)
      ensures res.Ok? ==> res.value.body == input.body && res.value.revision == 1 && res.value.updatedAt == now
    {
      StepKeepsWellFormed(View(), Call(Op.CreateReply(input), now, id));
      if input.discussionID !in discussions {
        return Err(NotFound);
      }
      var r := Reply(id, input.discussionID, input.body, input.createdBy, input.model, 1, now, now);
      replies := replies[id := r];
      res := Ok(r);
    }

    method SetStatus(discussionID: string, to: string, reason: string, actor: string, now: int)
      returns (res: Result<Discussion>)
      requires Valid()
      modifies this
      ensures Valid()
      ensures (View(), DiscussionOutcome(res)) ==
              Apply(old(View()), Call(Op.SetStatus(discussionID, to, reason, actor), now, ""))
    {
      StepKeepsWellFormed(View(), Call(Op.SetStatus(discussionID, to, reason, actor), now, ""));
      if discussionID !in discussions {
        return Err(NotFound);
      }
      if reason == "" {
        return Err(EmptyReason);
      }
      var d := discussions[discussionID];
      var from := d.status;
      d := d.(status := to, updatedAt := now);
      discussions := discussions[discussionID := d];
      statusEvents := statusEvents[discussionID := Entries(statusEvents, discussionID) +
                                                   [StatusEvent(from, to, reason, actor, now)]];
      res := Ok(d);
    }

    method UpdateDiscussionBody(discussionID: string, expectedRevision: int, newBody: string, editor: string, now: int)
      returns (res: Result<Discussion>)
      requires Valid()
      modifies this
      ensures Valid()
      ensures (View(), DiscussionOutcome(res)) ==
              Apply(old(View()), Call(EditBody(OnDiscussion(discussionID), expectedRevision, newBody, editor), now, ""))
    {
      StepKeepsWellFormed(View(),
        Call(EditBody(OnDiscussion(discussionID), expectedRevision, newBody, editor), now, ""));
      if discussionID !in discussions {
        return Err(NotFound);
      }
      var d := discussions[discussionID];
      if d.revision != expectedRevision {
        return Err(RevisionConflict);
      }
      var oldBody := d.body;
      d := d.(body := newBody, revision := d.revision + 1, updatedAt := now);
      discussions := discussions[discussionID := d];
      bodyRevisions := bodyRevisions[discussionID := Entries(bodyRevisions, discussionID) +
                                                     [BodyRevision(OnDiscussion(discussionID), oldBody, newBody,
                                                       editor, now)]];
      res := Ok(d);
    }

    method UpdateReplyBody(replyID: string, expectedRevision: int, newBody: string, editor: string, now: int)
      returns (res: Result<Reply>)
      requires Valid()
      modifies this
      ensures Valid()
      ensures (View(), ReplyOutcome(res)) ==
              Apply(old(View()), Call(EditBody(OnReply(replyID), expectedRevision, newBody, editor), now, ""))
    {
      StepKeepsWellFormed(View(), Call(EditBody(OnReply(replyID), expectedRevision, newBody, editor), now, ""));
      if replyID !in replies {
        return Err(NotFound);
      }
      var r := replies[replyID];
      if r.revision != expectedRevision {
        return Err(RevisionConflict);
      }
      var oldBody := r.body;
      r := r.(body := newBody, revision := r.revision + 1, updatedAt := now);
      replies := replies[replyID := r];
      replyRevisions := replyRevisions[replyID := Entries(replyRevisions, replyID) +
                                                  [BodyRevision(OnReply(replyID), oldBody, newBody, editor, now)]];
      assert View() == WithBody(old(View()), OnReply(replyID), newBody, editor, now);
      res := Ok(r);
    }

    method ReplyCount(discussionID: string) returns (n: int)
      requires Valid()
      ensures n == |RepliesOf(View(), discussionID)|
    {
      n := 0;
      var todo := replies.Keys;
      ghost var counted: set<string> := {};
      while todo != {}
        invariant todo <= replies.Keys
        invariant counted == set r | r in replies && r !in todo && replies[r].discussionID == discussionID
        invariant n == |counted|
        decreases todo
      {
        var r :| r in todo;
        todo := todo - {r};
        if replies[r].discussionID == discussionID {
          n := n + 1;
          counted := counted + {r};
        }
      }
      assert counted == RepliesOf(View(), discussionID);
    }

    method GetDiscussion(id: string) returns (d: Option<Discussion>)
      requires Valid()
      ensures d == if id in discussions then Some(WithReplyCount(View(), id)) else None
    {
      if id !in discussions {
        return None;
      }
      var n := ReplyCount(id);
      d := Some(discussions[id].(replyCount := n));
    }

    /** The filtering loop of ListDiscussions, in Go's arbitrary map order. */
    method MatchingRows(f: ListFilter) returns (out: seq<Discussion>)
      requires Valid()
      ensures DistinctRows(discussions, f, out)
    {
      out := [];
      var todo := discussions.Keys;
      while todo != {}
        invariant todo <= discussions.Keys
        invariant forall i :: 0 <= i < |out| ==>
                    var id := out[i].discussionID;
                    id in discussions && id !in todo && out[i] == discussions[id] && MemMatches(out[i], f)
        invariant forall i, j :: 0 <= i < j < |out| ==> out[i].discussionID != out[j].discussionID
        invariant forall id :: id in discussions && id !in todo && MemMatches(discussions[id], f) ==>
            discussions[id] in out
        decreases todo
      {
        var id :| id in todo;
        todo := todo - {id};
        if MemMatches(discussions[id], f) {
          out := out + [discussions[id]];
        }
      }
    }

    /** The rows of the page, newest first, each with the number of replies held. */
    method ListDiscussions(f: ListFilter) returns (out: seq<Discussion>)
      requires Valid()
      ensures |out| == |MemPage(discussions, f)|
      ensures forall i :: 0 <= i < |out| ==>
                MemPage(discussions, f)[i] in discussions
                  && out[i] == WithReplyCount(View(), MemPage(discussions, f)[i])
    {
      ghost var page := MemPage(discussions, f);
      out := SortedMatchingRows(f);
      if f.limit > 0 && |out| > f.limit {
        out := out[..f.limit];
      }
      var i := 0;
      while i < |out|
        invariant 0 <= i <= |out| == |page|
        invariant forall k :: 0 <= k < i ==> page[k] in discussions && out[k] == WithReplyCount(View(), page[k])
        invariant forall k :: i <= k < |out| ==> page[k] in discussions && out[k] == discussions[page[k]]
      {
        var n := ReplyCount(out[i].discussionID);
        out := out[i := out[i].(replyCount := n)];
        i := i + 1;
      }
    }

    method SortedMatchingRows(f: ListFilter) returns (out: seq<Discussion>)
      requires Valid()
      ensures var all := NewestFirst(MemMatching(discussions, f));
              |out| == |all| && forall i :: 0 <= i < |out| ==> all[i] in discussions && out[i] == discussions[all[i]]
    {
      var rows := MatchingRows(f);
      NewerIDIsStrictWeakOrder();
      out := SortSlice(rows, NewerID);
      SortedRowsArePage(discussions, f, rows, out);
    }

    method ListReplies(discussionID: string, afterReplyID: string, limit: int) returns (res: Result<seq<Reply>>)
      requires Valid()
      ensures res.Err? <==> discussionID !in discussions
      ensures res.Err? ==> res.error == NotFound
      ensures res.Ok? ==>
                var page := MemReplyPage(replies, discussionID, afterReplyID, limit);
                |res.value| == |page| && forall i :: 0 <= i < |page| ==>
                  page[i] in replies && res.value[i] == replies[page[i]]
    {
      if discussionID !in discussions {
        return Err(NotFound);
      }
      var found := MatchingReplies(discussionID, afterReplyID);
      OlderReplyIsStrictWeakOrder();
      var out := SortSlice(found, OlderReply);
      SortedRepliesArePage(replies, RepliesAfter(replies, discussionID, afterReplyID), found, out);
      if limit > 0 && |out| > limit {
        out := out[..limit];
      }
      res := Ok(out);
    }

    /** The filtering loop of ListReplies. */
    method MatchingReplies(discussionID: string, afterReplyID: string) returns (out: seq<Reply>)
      requires Valid()
      ensures DistinctReplies(replies, RepliesAfter(replies, discussionID, afterReplyID), out)
    {
      out := [];
      var todo := replies.Keys;
      while todo != {}
        invariant todo <= replies.Keys
        invariant forall i :: 0 <= i < |out| ==>
                    var id := out[i].replyID;
                    id in replies && id !in todo && out[i] == replies[id]
                      && id in RepliesAfter(replies, discussionID, afterReplyID)
        invariant forall i, j :: 0 <= i < j < |out| ==> out[i].replyID != out[j].replyID
        invariant forall id :: id in RepliesAfter(replies, discussionID, afterReplyID) && id !in todo ==>
            replies[id] in out
        decreases todo
      {
        var id :| id in todo;
        todo := todo - {id};
        if replies[id].discussionID == discussionID && !(afterReplyID != "" && AtMost(id, afterReplyID)) {
          Total(id, afterReplyID);
          out := out + [replies[id]];
        } else if replies[id].discussionID == discussionID {
          Asymmetric(id, afterReplyID);
        }
      }
    }

    /** Every edit of the discussion and of its replies, earliest first, and its status events. */
    method History(discussionID: string) returns (res: Result<Trail>)
      requires Valid()
      ensures res.Err? <==> discussionID !in discussions
      ensures res.Err? ==> res.error == NotFound
      ensures res.Ok? ==> IsHistory(View(), discussionID, res.value.revisions)
      ensures res.Ok? ==> res.value.events == EventsOf(View(), discussionID)
    {
      if discussionID !in discussions {
        return Err(NotFound);
      }
      var revs := Entries(bodyRevisions, discussionID);
      var todo := replies.Keys;
      while todo != {}
        invariant todo <= replies.Keys
        invariant CountsExactly(View(), revs, BelongingBut(View(), discussionID, todo))
        decreases todo
      {
        var r :| r in todo;
        OneMoreBody(View(), discussionID, todo, r);
        if replies[r].discussionID == discussionID {
          CountsGrow(View(), revs, BelongingBut(View(), discussionID, todo), OnReply(r));
          revs := revs + Entries(replyRevisions, r);
        }
        todo := todo - {r};
      }
      assert Belonging(View(), discussionID) == BelongingBut(View(), discussionID, {});
      revs := SortSlice(revs, EarlierRevision);
      res := Ok(Trail(revs, Entries(statusEvents, discussionID)));
    }
  }

  function DiscussionOutcome(res: Result<Discussion>): Outcome {
    match res
    case Ok(d) => DiscussionRow(d)
    case Err(e) => Refused(e)
  }

  function ReplyOutcome(res: Result<Reply>): Outcome {
    match res
    case Ok(r) => ReplyRow(r)
    case Err(e) => Refused(e)
  }

  ghost predicate DistinctRows(discussions: map<string, Discussion>, f: ListFilter, rows: seq<Discussion>) {
    && (forall i :: 0 <= i < |rows| ==>
          rows[i].discussionID in discussions && rows[i] == discussions[rows[i].discussionID] && MemMatches(rows[i], f))
    && (forall i, j :: 0 <= i < j < |rows| ==> rows[i].discussionID != rows[j].discussionID)
    && (forall id :: id in discussions && MemMatches(discussions[id], f) ==> discussions[id] in rows)
  }

  lemma SortedRowsArePage(discussions: map<string, Discussion>, f: ListFilter, found: seq<Discussion>,
                          out: seq<Discussion>)
    requires forall id :: id in discussions ==> discussions[id].discussionID == id
    requires DistinctRows(discussions, f, found)
    requires multiset(out) == multiset(found) && SortedBy(out, NewerID)
    ensures |out| == |NewestFirst(MemMatching(discussions, f))|
    ensures forall i :: 0 <= i < |out| ==>
              var id := NewestFirst(MemMatching(discussions, f))[i];
              id in discussions && out[i] == discussions[id] && out[i].discussionID == id
  {
    SameElements(out, found);
    var key := (d: Discussion) => d.discussionID;
    DistinctKeysSurvive(found, out, key);
    var ids := Keys(out, key);
    forall i, j | 0 <= i < j < |ids| ensures Less(ids[j], ids[i]) {
      Total(ids[i], ids[j]);
      assert !NewerID(out[j], out[i]) && key(out[i]) != key(out[j]);
    }
    var all := MemMatching(discussions, f);
    forall x ensures x in ids <==> x in all {
      if x in ids { KeyHasRow(out, key, x); }
      if x in all {
        assert discussions[x] in out;
        RowHasKey(out, key, discussions[x]);
      }
    }
    DescendingIsUnique(ids, NewestFirst(all));
    forall i | 0 <= i < |out| ensures NewestFirst(all)[i] in discussions && out[i] == discussions[NewestFirst(all)[i]] {
      assert out[i] in found && ids[i] == out[i].discussionID;
    }
  }

  ghost predicate DistinctReplies(replies: map<string, Reply>, ids: set<string>, rows: seq<Reply>) {
    && (forall i :: 0 <= i < |rows| ==>
      rows[i].replyID in replies && rows[i] == replies[rows[i].replyID] && rows[i].replyID in ids)
    && (forall i, j :: 0 <= i < j < |rows| ==> rows[i].replyID != rows[j].replyID)
    && (forall id :: id in ids ==> id in replies && replies[id] in rows)
  }

  lemma SortedRepliesArePage(replies: map<string, Reply>, ids: set<string>, found: seq<Reply>, out: seq<Reply>)
    requires forall id :: id in replies ==> replies[id].replyID == id
    requires DistinctReplies(replies, ids, found)
    requires multiset(out) == multiset(found) && SortedBy(out, OlderReply)
    ensures |out| == |OldestFirst(ids)|
    ensures forall i :: 0 <= i < |out| ==> OldestFirst(ids)[i] in replies && out[i] == replies[OldestFirst(ids)[i]]
  {
    SameElements(out, found);
    var key := (r: Reply) => r.replyID;
    DistinctKeysSurvive(found, out, key);
    var s := Keys(out, key);
    forall i, j | 0 <= i < j < |s| ensures Less(s[i], s[j]) {
      Total(s[i], s[j]);
      assert !OlderReply(out[j], out[i]) && key(out[i]) != key(out[j]);
    }
    forall x ensures x in s <==> x in ids {
      if x in s { KeyHasRow(out, key, x); }
      if x in ids {
        assert replies[x] in out;
        RowHasKey(out, key, replies[x]);
      }
    }
    AscendingIsUnique(s, OldestFirst(ids));
    forall i | 0 <= i < |out| ensures OldestFirst(ids)[i] in replies && out[i] == replies[OldestFirst(ids)[i]] {
      assert out[i] in found && s[i] == out[i].replyID;
    }
  }

  ghost function Keys<T>(rows: seq<T>, key: T -> string): seq<string> {
    seq(|rows|, i requires 0 <= i < |rows| => key(rows[i]))
  }

  lemma KeyHasRow<T>(rows: seq<T>, key: T -> string, x: string)
    requires x in Keys(rows, key)
    ensures exists i :: 0 <= i < |rows| && rows[i] in rows && key(rows[i]) == x
  {
    var i :| 0 <= i < |rows| && Keys(rows, key)[i] == x;
    assert rows[i] in rows;
  }

  lemma RowHasKey<T>(rows: seq<T>, key: T -> string, row: T)
    requires row in rows
    ensures key(row) in Keys(rows, key)
  {
    var i :| 0 <= i < |rows| && rows[i] == row;
    assert Keys(rows, key)[i] == key(row);
  }

  /** Pairwise distinct keys stay pairwise distinct under permutation. */
  lemma DistinctKeysSurvive<T>(found: seq<T>, out: seq<T>, key: T -> string)
    requires multiset(out) == multiset(found)
    requires forall i, j :: 0 <= i < j < |found| ==> key(found[i]) != key(found[j])
    ensures forall i, j :: 0 <= i < j < |out| ==> key(out[i]) != key(out[j])
  {
    SameElements(out, found);
    forall i, j | 0 <= i < j < |out| ensures key(out[i]) != key(out[j]) {
      if key(out[i]) == key(out[j]) {
        assert out[i] in found && out[j] in found;
        var p :| 0 <= p < |found| && found[p] == out[i];
        var q :| 0 <= q < |found| && found[q] == out[j];
        assert p == q;
        DuplicateNeedsTwo(out, found, i, j);
        assert false;
      }
    }
  }

  lemma DuplicateNeedsTwo<T>(out: seq<T>, found: seq<T>, i: int, j: int)
    requires multiset(out) == multiset(found)
    requires 0 <= i < j < |out| && out[i] == out[j]
    ensures exists p, q :: 0 <= p < q < |found| && found[p] == found[q]
  {
    var x := out[i];
    assert out == out[..j] + [out[j]] + out[j + 1..];
    assert x in multiset(out[..j]) by { assert out[..j][i] == x; }
    assert multiset(out)[x] >= 2;
    TwoOccurrences(found, x);
  }

  lemma {:induction false} TwoOccurrences<T>(s: seq<T>, x: T)
    requires multiset(s)[x] >= 2
    ensures exists p, q :: 0 <= p < q < |s| && s[p] == s[q]
  {
    assert s == s[..|s| - 1] + [s[|s| - 1]];
    if s[|s| - 1] == x {
      assert x in multiset(s[..|s| - 1]);
      var p :| 0 <= p < |s| - 1 && s[p] == x;
      assert s[p] == s[|s| - 1];
    } else {
      TwoOccurrences(s[..|s| - 1], x);
      var p, q :| 0 <= p < q < |s| - 1 && s[..|s| - 1][p] == s[..|s| - 1][q];
      assert s[p] == s[q];
    }
  }

  // ---------------------------------------------------------------- history

  /** The bodies whose edits belong to a discussion's history: its own and its replies'. */
  ghost function Belonging(st: State, id: string): set<Target> {
    {OnDiscussion(id)} + (set r | r in st.replies && st.replies[r].discussionID == id :: OnReply(r))
  }

  /** The discussion and its replies but those still to do. */
  ghost function BelongingBut(st: State, id: string, todo: set<string>): set<Target> {
    {OnDiscussion(id)} + (set r | r in st.replies && r !in todo && st.replies[r].discussionID == id :: OnReply(r))
  }

  lemma OneMoreBody(st: State, id: string, todo: set<string>, r: string)
    requires r in todo && r in st.replies
    ensures OnReply(r) !in BelongingBut(st, id, todo)
    ensures BelongingBut(st, id, todo - {r})
         == BelongingBut(st, id, todo) + if st.replies[r].discussionID == id then {OnReply(r)} else {}
  {
  }

  /** Every logged edit of exactly these bodies, as often as it was logged. */
  ghost predicate CountsExactly(st: State, revs: seq<BodyRevision>, bodies: set<Target>) {
    forall e: BodyRevision ::
      multiset(revs)[e] == (if e.target in bodies then multiset(EditsOf(st, e.target))[e] else 0)
  }

  ghost predicate IsHistory(st: State, id: string, revs: seq<BodyRevision>) {
    CountsExactly(st, revs, Belonging(st, id)) && SortedBy(revs, EarlierRevision)
  }

  lemma CountsGrow(st: State, revs: seq<BodyRevision>, bodies: set<Target>, t: Target)
    requires CountsExactly(st, revs, bodies) && t !in bodies && AllOn(EditsOf(st, t), t)
    ensures CountsExactly(st, revs + EditsOf(st, t), bodies + {t})
  {
    var log := EditsOf(st, t);
    forall e: BodyRevision
      ensures multiset(revs + log)[e] ==
              (if e.target in bodies + {t} then multiset(EditsOf(st, e.target))[e] else 0)
    {
      if e.target != t {
        assert e !in log;
        assert multiset(log)[e] == 0;
      }
    }
  }
}
