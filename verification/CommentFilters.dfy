/** What a list holds, field by field of the filter, and which rows a limit leaves out. */
module CommentFilters {
  import opened Order
  import opened CommentStore
  import opened CommentQueries
  import opened SinceCursor
  import opened Options

  /** What both stores ask of a row: each field of the filter that is set restricts its own column, scopes to any of the
      given ones. */
  predicate Wanted(d: Discussion, f: ListFilter) {
    && (f.parseRevision != "" ==> d.parseRevision == f.parseRevision)
    && (f.pageIdx.Some? ==> f.pageIdx.value == d.pageIdx)
    && (f.blockIndex.Some? ==> f.blockIndex.value == d.blockIndex)
    && (f.kind != "" ==> d.kind == f.kind)
    && (f.scopes != [] ==> exists i :: 0 <= i < |f.scopes| && f.scopes[i] == d.scope)
    && (f.cursor != "" ==> Less(d.discussionID, f.cursor))
    && (f.since != ZERO_TIME ==> SinceAfter(d.updatedAt, d.discussionID, f.since, f.sinceID))
  }

  /** MemStore takes an empty paper id for every paper, and an empty status for the rows without one. */
  predicate WantedByMem(d: Discussion, f: ListFilter) {
    && Wanted(d, f)
    && (f.paperID != "" ==> d.paperID == f.paperID)
    && (f.statusIsNull ==> d.status == "")
    && (!f.statusIsNull && f.status.Some? ==> f.status.value == d.status)
  }

  /** PGStore always asks for one paper, and its rows without a status have none to compare. */
  predicate WantedByPg(d: Discussion, f: ListFilter) {
    && Wanted(d, f) && d.paperID == f.paperID
    && (f.statusIsNull ==> d.status == "")
    && (!f.statusIsNull && f.status.Some? ==> d.status != "" && f.status.value == d.status)
  }

  lemma MatchesExactly(d: Discussion, f: ListFilter)
    ensures MemMatches(d, f) <==> WantedByMem(d, f)
    ensures PgMatches(d, f) <==> WantedByPg(d, f)
  {
  }

  /** The newest `limit` of the wanted ids: in descending order, and an id is missing exactly when it is not wanted, or
      the page is full of newer ones. */
  ghost predicate NewestPage(page: seq<string>, wanted: string -> bool, limit: nat) {
    && Descending(page) && |page| <= limit
    && (forall id :: id in page ==> wanted(id))
    && (forall id :: wanted(id) && id !in page ==> |page| == limit && forall k :: 0 <= k < |page| ==> Less(id, page[k]))
  }

  lemma CutIsNewestPage(ids: set<string>, wanted: string -> bool, limit: nat)
    requires forall id :: id in ids <==> wanted(id)
    ensures NewestPage(Limited(NewestFirst(ids), limit), wanted, limit)
  {
    var all := NewestFirst(ids);
    var page := Limited(all, limit);
    forall id | wanted(id) && id !in page ensures |page| == limit && forall k :: 0 <= k < |page| ==> Less(id, page[k]) {
      assert id in all;
      var i :| 0 <= i < |all| && all[i] == id;
      assert i >= limit;
    }
  }

  /** MemStore with a positive limit lists the newest of the rows its filter wants. */
  lemma MemPageIsTheNewest(discussions: map<string, Discussion>, f: ListFilter)
    requires f.limit > 0
    ensures NewestPage(MemPage(discussions, f), id => id in discussions && WantedByMem(discussions[id], f), f.limit)
  {
    forall id | id in discussions ensures MemMatches(discussions[id], f) <==> WantedByMem(discussions[id], f) {
      MatchesExactly(discussions[id], f);
    }
    CutIsNewestPage(MemMatching(discussions, f), id => id in discussions && WantedByMem(discussions[id], f), f.limit);
  }

  /** Without one it lists them all, newest first. */
  lemma MemListsAll(discussions: map<string, Discussion>, f: ListFilter)
    requires f.limit <= 0
    ensures Descending(MemPage(discussions, f))
    ensures forall id :: id in MemPage(discussions, f) <==> id in discussions && WantedByMem(discussions[id], f)
  {
    forall id | id in discussions ensures MemMatches(discussions[id], f) <==> WantedByMem(discussions[id], f) {
      MatchesExactly(discussions[id], f);
    }
  }

  /** PGStore lists the newest of the rows its query wants, one of them when the limit is not positive. */
  lemma PgPageIsTheNewest(discussions: map<string, Discussion>, f: ListFilter)
    ensures NewestPage(PgPage(discussions, f), id => id in discussions && WantedByPg(discussions[id], f),
                       if f.limit > 0 then f.limit else 1)
  {
    forall id | id in discussions ensures PgMatches(discussions[id], f) <==> WantedByPg(discussions[id], f) {
      MatchesExactly(discussions[id], f);
    }
    CutIsNewestPage(PgMatching(discussions, f), id => id in discussions && WantedByPg(discussions[id], f),
                    if f.limit > 0 then f.limit else 1);
  }

  /** The oldest `limit` of the wanted ids. */
  ghost predicate OldestPage(page: seq<string>, wanted: string -> bool, limit: nat) {
    && Ascending(page) && |page| <= limit
    && (forall id :: id in page ==> wanted(id))
    && (forall id :: wanted(id) && id !in page ==> |page| == limit && forall k :: 0 <= k < |page| ==> Less(page[k], id))
  }

  lemma CutIsOldestPage(ids: set<string>, wanted: string -> bool, limit: nat)
    requires forall id :: id in ids <==> wanted(id)
    ensures OldestPage(Limited(OldestFirst(ids), limit), wanted, limit)
  {
    var all := OldestFirst(ids);
    var page := Limited(all, limit);
    forall id | wanted(id) && id !in page ensures |page| == limit && forall k :: 0 <= k < |page| ==> Less(page[k], id) {
      assert id in all;
      var i :| 0 <= i < |all| && all[i] == id;
      assert i >= limit;
    }
  }

  predicate WantedReply(replies: map<string, Reply>, id: string, after: string, r: string) {
    r in replies && replies[r].discussionID == id && (after != "" ==> Less(after, r))
  }

  /** Both stores list the oldest replies of the discussion after the cursor: MemStore up to a positive limit and all of
      them otherwise, PGStore up to a positive limit and twenty otherwise. */
  lemma ReplyPagesAreTheOldest(replies: map<string, Reply>, id: string, after: string, limit: int)
    ensures OldestPage(PgReplyPage(replies, id, after, limit), r => WantedReply(replies, id, after, r),
                       if limit > 0 then limit else 20)
    ensures limit > 0 ==>
              OldestPage(MemReplyPage(replies, id, after, limit), r => WantedReply(replies, id, after, r), limit)
    ensures limit <= 0 ==>
      && Ascending(MemReplyPage(replies, id, after, limit))
      && forall r :: r in MemReplyPage(replies, id, after, limit) <==> WantedReply(replies, id, after, r)
  {
    CutIsOldestPage(RepliesAfter(replies, id, after), r => WantedReply(replies, id, after, r),
                    if limit > 0 then limit else 20);
  }
}
