/** The discussion and reply lists of both stores, as sets of matching ids and the page cut from them. */
module CommentQueries {
  import opened Order
  import opened CommentStore
  import opened SinceCursor
  import opened Options

  /** `since == ZERO_TIME` means no since constraint; an empty string or None means no constraint. */
  datatype ListFilter = ListFilter(
    paperID: string, parseRevision: string, pageIdx: Option<int>, blockIndex: Option<int>, kind: string,
    status: Option<string>, statusIsNull: bool, scopes: seq<string>, cursor: string, limit: int,
    since: int, sinceID: string)

  /** The filters on columns no call ever changes. */
  predicate MatchesAnchor(d: Discussion, f: ListFilter) {
    && (f.parseRevision == "" || d.parseRevision == f.parseRevision)
    && (f.pageIdx.None? || d.pageIdx == f.pageIdx.value)
    && (f.blockIndex.None? || d.blockIndex == f.blockIndex.value)
    && (f.kind == "" || d.kind == f.kind)
    && (f.scopes == [] || d.scope in f.scopes)
  }

  predicate PastSince(d: Discussion, f: ListFilter) {
    f.since == ZERO_TIME || SinceAfter(d.updatedAt, d.discussionID, f.since, f.sinceID)
  }

  predicate BelowCursor(id: string, f: ListFilter) {
    f.cursor == "" || Less(id, f.cursor)
  }

  /** MemStore's filter. */
  predicate MemMatches(d: Discussion, f: ListFilter) {
    && (f.paperID == "" || d.paperID == f.paperID)
    && MatchesAnchor(d, f)
    && (if f.statusIsNull then d.status == "" else f.status.None? || d.status == f.status.value)
    && BelowCursor(d.discussionID, f)
    && PastSince(d, f)
  }

  /** The WHERE clause PGStore builds.  An empty status is SQL NULL, which no equality selects. */
  predicate PgMatches(d: Discussion, f: ListFilter) {
    && d.paperID == f.paperID
    && MatchesAnchor(d, f)
    && (if f.statusIsNull then d.status == "" else f.status.None? || (d.status != "" && d.status == f.status.value))
    && BelowCursor(d.discussionID, f)
    && PastSince(d, f)
  }

  ghost function MemMatching(discussions: map<string, Discussion>, f: ListFilter): set<string> {
    set id | id in discussions && MemMatches(discussions[id], f)
  }

  ghost function PgMatching(discussions: map<string, Discussion>, f: ListFilter): set<string> {
    set id | id in discussions && PgMatches(discussions[id], f)
  }

  function Limited<T>(s: seq<T>, n: nat): seq<T> {
    if |s| <= n then s else s[..n]
  }

  /** MemStore cuts only at a positive limit; PGStore's limit is at least 1. */
  ghost function MemPage(discussions: map<string, Discussion>, f: ListFilter): seq<string> {
    var all := NewestFirst(MemMatching(discussions, f));
    if f.limit > 0 then Limited(all, f.limit) else all
  }

  ghost function PgPage(discussions: map<string, Discussion>, f: ListFilter): seq<string> {
    Limited(NewestFirst(PgMatching(discussions, f)), if f.limit <= 0 then 1 else f.limit)
  }

  /** What both stores' callers send: a paper id, a positive limit, never the empty status. */
  predicate WellFormedFilter(f: ListFilter) {
    f.paperID != "" && f.limit > 0 && (f.statusIsNull || f.status != Some(""))
  }

  lemma StoresListTheSamePage(discussions: map<string, Discussion>, f: ListFilter)
    requires WellFormedFilter(f)
    ensures MemPage(discussions, f) == PgPage(discussions, f)
  {
    assert MemMatching(discussions, f) == PgMatching(discussions, f);
  }

  /** A row every filter on immutable columns, since and MemStore's status rule lets through. */
  function Witness(f: ListFilter, id: string, paperID: string): Discussion {
    Discussion(id, paperID, f.parseRevision, if f.pageIdx.None? then 0 else f.pageIdx.value,
               if f.blockIndex.None? then 1 else f.blockIndex.value, f.kind, if f.scopes == [] then "" else f.scopes[0],
               if f.statusIsNull || f.status.None? then "" else f.status.value, "b", "u", "", 1, 0, 0,
               f.since + NANOS_PER_MILLI)
  }

  function AnyPaper(f: ListFilter): string {
    if f.paperID == "" then "qa_p" else f.paperID
  }

  lemma WitnessMatches(f: ListFilter, id: string)
    requires BelowCursor(id, f)
    ensures MemMatches(Witness(f, id, AnyPaper(f)), f)
  {
    var floor := TruncateMilli(f.since + NANOS_PER_MILLI);
    assert f.since + NANOS_PER_MILLI - floor < NANOS_PER_MILLI;
  }

  /** Rows are filed under their own ids, and minted ids are not empty. */
  predicate Keyed(rows: map<string, Discussion>) {
    "" !in rows && forall id :: id in rows ==> rows[id].discussionID == id
  }

  /** Texts over an alphabet with this smallest character: NUL for Go's strings, the next one for PostgreSQL's text. */
  predicate Over(smallest: char, text: string) {
    forall c :: c in text ==> smallest <= c
  }

  predicate KeyedOver(smallest: char, rows: map<string, Discussion>) {
    Keyed(rows) && forall id :: id in rows ==> Over(smallest, id)
  }

  /** No id is below this cursor. */
  predicate LowestCursor(smallest: char, cursor: string) {
    cursor == [smallest]
  }

  /** A single id is below this cursor. */
  predicate NextToLowestCursor(smallest: char, cursor: string) {
    cursor == [smallest, smallest]
  }

  lemma BelowTheLowestCursors(smallest: char, id: string, cursor: string)
    requires id != "" && Over(smallest, id) && Less(id, cursor)
    ensures !LowestCursor(smallest, cursor) && (NextToLowestCursor(smallest, cursor) ==> id == [smallest])
  {
    var k: nat :| k < |cursor| && SmallerAt(id, cursor, k);
    assert id[0] in id;
    if k == 1 && k < |id| {
      assert id[1] in id;
    }
  }

  /** Two ids below any other cursor, in this order. */
  function FirstBelow(smallest: char, cursor: string): string {
    if |cursor| > 2 then cursor[..1] else [smallest]
  }

  function SecondBelow(smallest: char, cursor: string): string {
    if |cursor| > 2 then cursor[..2] else [smallest, smallest]
  }

  lemma BelowOtherCursors(smallest: char, f: ListFilter)
    requires Over(smallest, f.cursor) && !LowestCursor(smallest, f.cursor)
    ensures var a, b := FirstBelow(smallest, f.cursor), SecondBelow(smallest, f.cursor);
      && a != "" && Over(smallest, a) && BelowCursor(a, f)
      && (!NextToLowestCursor(smallest, f.cursor) ==> b !in ["", a] && Over(smallest, b) && BelowCursor(b, f))
  {
    var a, b := FirstBelow(smallest, f.cursor), SecondBelow(smallest, f.cursor);
    if |f.cursor| > 2 {
      assert SmallerAt(a, f.cursor, 1) && SmallerAt(b, f.cursor, 2);
      assert forall c :: c in f.cursor[..1] || c in f.cursor[..2] ==> c in f.cursor;
    } else if f.cursor != "" {
      assert f.cursor[0] in f.cursor;
      if f.cursor[0] != smallest {
        assert SmallerAt(a, f.cursor, 0) && SmallerAt(b, f.cursor, 0);
      } else {
        assert SmallerAt(a, f.cursor, 1) && f.cursor[1] in f.cursor;
        if f.cursor[1] != smallest {
          assert SmallerAt(b, f.cursor, 1);
        }
      }
    }
  }

  /** The filters on which the stores agree: those with no id below their cursor, and those with a paper id and no empty
      status whose limit is positive, or not needed because a single id is below their cursor. */
  predicate AgreeingFilter(smallest: char, f: ListFilter) {
    || LowestCursor(smallest, f.cursor)
    || (f.paperID != "" && (f.statusIsNull || f.status != Some(""))
        && (f.limit > 0 || NextToLowestCursor(smallest, f.cursor)))
  }

  lemma AgreeingFiltersAgree(smallest: char, discussions: map<string, Discussion>, f: ListFilter)
    requires AgreeingFilter(smallest, f) && KeyedOver(smallest, discussions)
    ensures MemPage(discussions, f) == PgPage(discussions, f)
  {
    var found := MemMatching(discussions, f);
    if f.cursor != "" {
      forall id | id in found || id in PgMatching(discussions, f)
        ensures !LowestCursor(smallest, f.cursor) && (NextToLowestCursor(smallest, f.cursor) ==> id == [smallest])
      {
        BelowTheLowestCursors(smallest, id, f.cursor);
      }
    }
    assert found == PgMatching(discussions, f);
    if f.limit <= 0 {
      AtMostOne(found, [smallest]);
    }
  }

  lemma AtMostOne(ids: set<string>, id: string)
    requires forall x :: x in ids ==> x == id
    ensures |ids| <= 1
  {
    assert ids == if id in ids then {id} else {};
  }

  lemma OneRowTellsStoresApart(smallest: char, f: ListFilter) returns (rows: map<string, Discussion>)
    requires Over(smallest, f.cursor) && !LowestCursor(smallest, f.cursor)
    requires f.paperID == "" || (!f.statusIsNull && f.status == Some(""))
    ensures KeyedOver(smallest, rows) && MemPage(rows, f) != PgPage(rows, f)
  {
    var id := FirstBelow(smallest, f.cursor);
    BelowOtherCursors(smallest, f);
    rows := map[id := Witness(f, id, AnyPaper(f))];
    WitnessMatches(f, id);
    assert id in MemMatching(rows, f);
    assert PgMatching(rows, f) == {};
    assert |NewestFirst(MemMatching(rows, f))| > 0;
  }

  lemma TwoRowsTellStoresApart(smallest: char, f: ListFilter) returns (rows: map<string, Discussion>)
    requires f.limit <= 0 && Over(smallest, f.cursor)
    requires !LowestCursor(smallest, f.cursor) && !NextToLowestCursor(smallest, f.cursor)
    ensures KeyedOver(smallest, rows) && MemPage(rows, f) != PgPage(rows, f)
  {
    var a, b := FirstBelow(smallest, f.cursor), SecondBelow(smallest, f.cursor);
    BelowOtherCursors(smallest, f);
    rows := map[a := Witness(f, a, AnyPaper(f)), b := Witness(f, b, AnyPaper(f))];
    WitnessMatches(f, a);
    WitnessMatches(f, b);
    assert MemMatching(rows, f) == {a, b};
    assert |NewestFirst({a, b})| == 2;
  }

  ghost predicate SamePage(smallest: char, rows: map<string, Discussion>, f: ListFilter) {
    KeyedOver(smallest, rows) ==> MemPage(rows, f) == PgPage(rows, f)
  }

  /** On every page of every list, the two stores give the same rows out of every table exactly for these filters,
      whatever the smallest character ids and cursors are made of. */
  lemma StoresAgreeExactly(smallest: char, f: ListFilter)
    requires Over(smallest, f.cursor)
    ensures (forall rows: map<string, Discussion> :: SamePage(smallest, rows, f)) <==> AgreeingFilter(smallest, f)
  {
    if AgreeingFilter(smallest, f) {
      forall rows: map<string, Discussion> ensures SamePage(smallest, rows, f) {
        if KeyedOver(smallest, rows) {
          AgreeingFiltersAgree(smallest, rows, f);
        }
      }
    } else if f.limit <= 0 && !NextToLowestCursor(smallest, f.cursor) {
      var rows := TwoRowsTellStoresApart(smallest, f);
      assert !SamePage(smallest, rows, f);
    } else {
      var rows := OneRowTellsStoresApart(smallest, f);
      assert !SamePage(smallest, rows, f);
    }
  }

  /** The replies of one discussion after a reply cursor, oldest first. */
  ghost function RepliesAfter(replies: map<string, Reply>, id: string, after: string): set<string> {
    set r | r in replies && replies[r].discussionID == id && (after == "" || Less(after, r))
  }

  ghost function Reverse<T>(s: seq<T>): seq<T> {
    seq(|s|, i requires 0 <= i < |s| => s[|s| - 1 - i])
  }

  lemma ReverseElements<T>(s: seq<T>, x: T)
    ensures x in Reverse(s) <==> x in s
  {
    if x in Reverse(s) {
      var i :| 0 <= i < |s| && Reverse(s)[i] == x;
      assert s[|s| - 1 - i] == x;
    }
    if x in s {
      var i :| 0 <= i < |s| && s[i] == x;
      assert Reverse(s)[|s| - 1 - i] == x;
    }
  }

  lemma ReverseOrder(s: seq<string>)
    ensures Ascending(s) ==> Descending(Reverse(s))
    ensures Descending(s) ==> Ascending(Reverse(s))
  {
  }

  /** An ascending sequence is determined by its elements, like a descending one. */
  lemma AscendingIsUnique(s: seq<string>, t: seq<string>)
    requires Ascending(s) && Ascending(t)
    requires forall x :: x in s <==> x in t
    ensures s == t
  {
    ReverseOrder(s);
    ReverseOrder(t);
    forall x ensures x in Reverse(s) <==> x in Reverse(t) {
      ReverseElements(s, x);
      ReverseElements(t, x);
    }
    DescendingIsUnique(Reverse(s), Reverse(t));
    forall i | 0 <= i < |s| ensures s[i] == t[i] {
      assert s[i] == Reverse(s)[|s| - 1 - i] && t[i] == Reverse(t)[|t| - 1 - i];
    }
  }

  ghost function OldestFirst(ids: set<string>): (s: seq<string>)
    ensures Ascending(s)
    ensures forall x :: x in s <==> x in ids
    ensures |s| == |ids|
  {
    var s := Reverse(NewestFirst(ids));
    ReverseOrder(NewestFirst(ids));
    assert forall x :: x in s <==> x in ids by {
      forall x ensures x in s <==> x in ids { ReverseElements(NewestFirst(ids), x); }
    }
    s
  }

  /** MemStore.ListReplies with limit <= 0 returns everything; PGStore falls back to 20. */
  ghost function MemReplyPage(replies: map<string, Reply>, id: string, after: string, limit: int): seq<string> {
    var all := OldestFirst(RepliesAfter(replies, id, after));
    if limit > 0 then Limited(all, limit) else all
  }

  const REPLY_FALLBACK := 20

  ghost function PgReplyPage(replies: map<string, Reply>, id: string, after: string, limit: int): seq<string> {
    Limited(OldestFirst(RepliesAfter(replies, id, after)), if limit <= 0 then REPLY_FALLBACK else limit)
  }

  /** The two stores list the same replies exactly when the limit is positive or the fallback suffices. */
  lemma ReplyPagesAgreeExactly(replies: map<string, Reply>, id: string, after: string, limit: int)
    ensures MemReplyPage(replies, id, after, limit) == PgReplyPage(replies, id, after, limit)
      <==> limit > 0 || |RepliesAfter(replies, id, after)| <= REPLY_FALLBACK
  {
    var all := OldestFirst(RepliesAfter(replies, id, after));
    assert |all| == |RepliesAfter(replies, id, after)|;
  }
}
