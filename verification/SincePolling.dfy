/** Incremental sync: read a since-window, advance the cursor, poll again after more calls. */
module SincePolling {
  import opened Order
  import opened CommentStore
  import opened CommentQueries
  import opened SinceCursor
  import KeysetWalk
  import opened Options

  type Rows = map<string, Discussion>

  /** What a client sends: no since at its first sync, afterwards the position it was given. */
  datatype Since = FirstSync | After(cur: Cursor)

  function PositionOf(d: Discussion): Cursor {
    Cursor(d.updatedAt, d.discussionID)
  }

  function AtSince(f: ListFilter, since: Since): ListFilter {
    match since
    case FirstSync => f.(cursor := "", since := ZERO_TIME)
    case After(cur) => f.(cursor := "", since := cur.time, sinceID := cur.id)
  }

  /** The ids of the since-window under every other filter of f. */
  ghost function Window(rows: Rows, f: ListFilter, since: Since): set<string> {
    MemMatching(rows, AtSince(f, since))
  }

  /** The filters of f other than since and cursor. */
  predicate Watched(d: Discussion, f: ListFilter) {
    MemMatches(d, AtSince(f, FirstSync))
  }

  predicate WholeMillis(cur: Cursor) {
    cur.time % NANOS_PER_MILLI == 0 && cur.time != ZERO_TIME
  }

  /** Every position a since text decodes to is a usable one. */
  lemma DecodedCursorIsWholeMillis(text: string)
    requires Decode(text).Position?
    ensures WholeMillis(Decode(text).cursor)
  {
    DecodedCursorsAreWholeMillis(text);
  }

  lemma WindowIsPositionOrder(rows: Rows, f: ListFilter, cur: Cursor, id: string)
    requires WholeMillis(cur) && id in rows && rows[id].discussionID == id
    ensures id in Window(rows, f, After(cur)) <==> Watched(rows[id], f) && Before(cur, PositionOf(rows[id]))
  {
    SinceAfterIsPositionOrder(rows[id].updatedAt, id, cur);
  }

  // ---------------------------------------------------------------- the clock

  predicate NotBefore(rows: Rows, now: int)
  {
    forall id :: id in rows ==> rows[id].updatedAt <= now
  }

  /** Each further call reads a clock that has not gone back, and mints monotonic ids. */
  ghost predicate MonotonicCalls(calls: seq<Call>, more: seq<Call>)
    requires ValidRun(calls + more)
    decreases |more|
  {
    more == [] || (
      assert Init(calls + more) == calls + Init(more);
      var c, before := CommentStore.Last(more), Replay(calls + Init(more));
      && MonotonicCalls(calls, Init(more))
      && NotBefore(before.discussions, c.now)
      && (c.op.CreateDiscussion? ==> forall id :: id in before.discussions ==> Less(id, c.id)))
  }

  /** A row that is new or differs from the earlier one was stamped no earlier than anything there was,
      and a new row's id sorts after every earlier id. */
  ghost predicate Recent(early: Rows, late: Rows, id: string) {
    id in late && (id !in early || late[id] != early[id]) ==>
      NotBefore(early, late[id].updatedAt) && (id !in early ==> forall x :: x in early ==> Less(x, id))
  }

  ghost predicate AllRecent(early: Rows, late: Rows) {
    && (forall id :: id in early ==> id in late && early[id].updatedAt <= late[id].updatedAt)
    && (forall id :: Recent(early, late, id))
  }

  lemma OneCallTouchesOneRow(st: State, c: Call, id: string)
    requires NewID(st, c) && id in Apply(st, c).0.discussions
    ensures id in st.discussions ==>
              Apply(st, c).0.discussions[id] == st.discussions[id] || Apply(st, c).0.discussions[id].updatedAt == c.now
    ensures id !in st.discussions ==>
        c.op.CreateDiscussion? && c.id == id && Apply(st, c).0.discussions[id].updatedAt == c.now
  {
    match c.op
    case CreateDiscussion(input) =>
    case CreateReply(input) =>
    case SetStatus(other, to, reason, actor) =>
    case EditBody(t, expected, newBody, editor) =>
      match t { case OnDiscussion(other) => case OnReply(other) => }
  }

  lemma StepIsRecent(early: Rows, st: State, c: Call)
    requires NewID(st, c) && AllRecent(early, st.discussions) && NotBefore(st.discussions, c.now)
    requires c.op.CreateDiscussion? ==> forall id :: id in st.discussions ==> Less(id, c.id)
    ensures AllRecent(early, Apply(st, c).0.discussions)
  {
    var late := Apply(st, c).0.discussions;
    forall id | id in early ensures id in late && early[id].updatedAt <= late[id].updatedAt {
      EffectOnDiscussion(st, c, id);
      OneCallTouchesOneRow(st, c, id);
    }
    forall id ensures Recent(early, late, id) {
      if id in late {
        OneCallTouchesOneRow(st, c, id);
        assert Recent(early, st.discussions, id);
      }
    }
  }

  lemma {:induction false} RunsAreRecent(calls: seq<Call>, more: seq<Call>)
    requires ValidRun(calls) && ValidRun(calls + more) && MonotonicCalls(calls, more)
    ensures AllRecent(Replay(calls).discussions, Replay(calls + more).discussions)
    decreases |more|
  {
    if more == [] {
      assert calls + more == calls;
    } else {
      assert Init(calls + more) == calls + Init(more);
      RunsAreRecent(calls, Init(more));
      StepIsRecent(Replay(calls).discussions, Replay(calls + Init(more)), CommentStore.Last(more));
    }
  }

  // ---------------------------------------------------------------- advancing the cursor

  /** The position a since text for this row carries: its millisecond and its id. */
  function CursorOf(d: Discussion): Cursor {
    Cursor(FromMilli(UnixMilli(d.updatedAt)), d.discussionID)
  }

  /** A cursor taken from a row of the store, which may have moved on since. */
  ghost predicate FromARow(rows: Rows, cur: Cursor) {
    cur.id in rows && UnixMilli(cur.time) <= UnixMilli(rows[cur.id].updatedAt)
  }

  lemma MillisMonotone(a: int, b: int)
    requires a <= b
    ensures UnixMilli(a) <= UnixMilli(b)
  {
  }

  /** The poll with any since text after any further calls.  A row comes exactly when its position is past the
      cursor.  For a cursor taken from a row that means: every new row comes, and a changed row comes unless it
      changed within the cursor's own millisecond and its id does not sort after the cursor's. */
  lemma NextPoll(calls: seq<Call>, more: seq<Call>, f: ListFilter, text: string, id: string)
    requires ValidRun(calls) && ValidRun(calls + more) && MonotonicCalls(calls, more)
    requires Decode(text).Position?
    requires id in Replay(calls + more).discussions && Watched(Replay(calls + more).discussions[id], f)
    ensures var early, late, cur := Replay(calls).discussions, Replay(calls + more).discussions, Decode(text).cursor;
      && (id in Window(late, f, After(cur)) <==> Before(cur, PositionOf(late[id])))
      && (FromARow(early, cur) ==>
            && (id !in early ==> id in Window(late, f, After(cur)))
            && (id in early && late[id] != early[id] ==>
                  (id !in Window(late, f, After(cur))
                   <==> UnixMilli(late[id].updatedAt) == UnixMilli(cur.time) && !Less(cur.id, id))))
  {
    var early, late, cur := Replay(calls).discussions, Replay(calls + more).discussions, Decode(text).cursor;
    RunsAreRecent(calls, more);
    assert WellFormed(Replay(calls + more)) && WellFormed(Replay(calls));
    DecodedCursorIsWholeMillis(text);
    WindowIsPositionOrder(late, f, cur, id);
    assert Recent(early, late, id);
    if FromARow(early, cur) && (id !in early || late[id] != early[id]) {
      MillisMonotone(early[cur.id].updatedAt, late[id].updatedAt);
    }
  }

  /** The largest position of a window, compared by millisecond and id. */
  ghost predicate Largest(rows: Rows, window: set<string>, cur: Cursor) {
    && cur.id in window && cur.id in rows && cur == CursorOf(rows[cur.id])
    && forall id :: id in window && id in rows ==> !Before(cur, PositionOf(rows[id]))
  }

  ghost predicate UsableSince(since: Since) {
    since.After? ==> WholeMillis(since.cur)
  }

  /** A client that read a window, its first one included, and moved to its largest position is sent no row again
      that has not been touched since. */
  lemma NothingUntouchedComesBack(calls: seq<Call>, more: seq<Call>, f: ListFilter, since: Since, cur: Cursor,
                                  id: string)
    requires ValidRun(calls) && ValidRun(calls + more) && MonotonicCalls(calls, more)
    requires UsableSince(since) && cur.time != ZERO_TIME
    requires Largest(Replay(calls).discussions, Window(Replay(calls).discussions, f, since), cur)
    requires id in Replay(calls).discussions && id in Replay(calls + more).discussions
    requires Replay(calls + more).discussions[id] == Replay(calls).discussions[id]
    ensures id !in Window(Replay(calls + more).discussions, f, After(cur))
  {
    var rows, late := Replay(calls).discussions, Replay(calls + more).discussions;
    assert WellFormed(Replay(calls)) && WellFormed(Replay(calls + more));
    CursorIsWholeMillis(rows[cur.id]);
    WindowIsPositionOrder(late, f, cur, id);
    if Before(cur, PositionOf(rows[id])) && Watched(rows[id], f) {
      PastTheWindowIsInIt(rows, f, since, cur, id);
    }
  }

  lemma CursorIsWholeMillis(d: Discussion)
    ensures CursorOf(d).time % NANOS_PER_MILLI == 0
    ensures UnixMilli(CursorOf(d).time) == UnixMilli(d.updatedAt)
  {
    assert (UnixMilli(d.updatedAt) * NANOS_PER_MILLI) % NANOS_PER_MILLI == 0;
  }

  /** A watched row past some row of a since-window is in that window. */
  lemma PastTheWindowIsInIt(rows: Rows, f: ListFilter, since: Since, cur: Cursor, id: string)
    requires UsableSince(since) && forall x :: x in rows ==> rows[x].discussionID == x
    requires cur.id in Window(rows, f, since) && cur == CursorOf(rows[cur.id])
    requires id in rows && Watched(rows[id], f) && Before(cur, PositionOf(rows[id]))
    ensures id in Window(rows, f, since)
  {
    if since.After? {
      CursorIsWholeMillis(rows[cur.id]);
      WindowIsPositionOrder(rows, f, since.cur, cur.id);
      WindowIsPositionOrder(rows, f, since.cur, id);
      BeforeIsStrictTotalOrder(since.cur, cur, PositionOf(rows[id]));
    }
  }

  // ---------------------------------------------------------------- the route's cursor

  predicate RawBefore(d: Discussion, e: Discussion) {
    d.updatedAt < e.updatedAt || (d.updatedAt == e.updatedAt && Less(d.discussionID, e.discussionID))
  }

  /** The list route's own choice: the item with the largest full-precision time, then id. */
  method RouteMaxItem(items: seq<Discussion>) returns (top: Discussion)
    requires items != []
    ensures top in items
    ensures forall i :: 0 <= i < |items| ==> !RawBefore(top, items[i])
  {
    top := items[0];
    Irreflexive(top.discussionID);
    var n := 1;
    while n < |items|
      invariant 1 <= n <= |items|
      invariant top in items
      invariant forall i :: 0 <= i < n ==> !RawBefore(top, items[i])
    {
      var it := items[n];
      Irreflexive(it.discussionID);
      if RawBefore(top, it) {
        forall i | 0 <= i < n ensures !RawBefore(it, items[i]) {
          RawTransitive(top, it, items[i]);
        }
        top := it;
      }
      n := n + 1;
    }
  }

  lemma RawTransitive(a: Discussion, b: Discussion, c: Discussion)
    requires RawBefore(a, b)
    ensures RawBefore(b, c) ==> RawBefore(a, c)
  {
    if Less(a.discussionID, b.discussionID) && Less(b.discussionID, c.discussionID) {
      Transitive(a.discussionID, b.discussionID, c.discussionID);
    }
  }

  /** Within the last page the millisecond cursor falls before exactly the rows of the chosen item's
      millisecond whose id sorts after its own. */
  lemma LastPageResends(items: seq<Discussion>, top: Discussion, d: Discussion)
    requires top in items && d in items && forall i :: 0 <= i < |items| ==> !RawBefore(top, items[i])
    ensures Before(CursorOf(top), PositionOf(d)) <==>
            UnixMilli(d.updatedAt) == UnixMilli(top.updatedAt) && Less(top.discussionID, d.discussionID)
  {
    var i :| 0 <= i < |items| && items[i] == d;
    assert !RawBefore(top, items[i]);
    MillisMonotone(d.updatedAt, top.updatedAt);
    CursorIsWholeMillis(top);
  }

  // ---------------------------------------------------------------- a whole window, page by page

  /** A client reads one window to its end while nothing is written; `top` is what the route picks from the
      last page when that page is not empty. */
  ghost predicate SyncedWindow(rows: Rows, f: ListFilter, since: Since, pages: seq<seq<string>>, top: Discussion) {
    && Keyed(rows) && f.limit > 0 && pages != [] && UsableSince(since)
    && KeysetWalk.Walk(seq(|pages|, _ => rows), pages, AtSince(f, since))
    && |pages[|pages| - 1]| < f.limit
    && (pages[|pages| - 1] != [] ==>
          && top.discussionID in pages[|pages| - 1]
          && top.discussionID in rows && rows[top.discussionID] == top && CursorOf(top).time != ZERO_TIME)
  }

  /** The since value the last response carries: the last page's choice, or what was sent when that page is empty. */
  function NextSince(since: Since, pages: seq<seq<string>>, top: Discussion): Since
    requires pages != []
  {
    if pages[|pages| - 1] == [] then since else After(CursorOf(top))
  }

  lemma SyncedWindowIsComplete(rows: Rows, f: ListFilter, since: Since, pages: seq<seq<string>>, top: Discussion)
    requires SyncedWindow(rows, f, since, pages, top)
    ensures KeysetWalk.Concat(pages) == NewestFirst(Window(rows, f, since))
  {
    KeysetWalk.UndisturbedWalk(rows, seq(|pages|, _ => rows), pages, AtSince(f, since));
  }

  lemma {:induction false} PagesAreParts(pages: seq<seq<string>>, x: string)
    requires pages != [] && x in pages[|pages| - 1]
    ensures x in KeysetWalk.Concat(pages)
  {
  }

  /** The client was given the whole window; the next poll, if nothing changes, sends again exactly the rows past the
      last page's maximum, or the whole window when the last page is empty. */
  lemma RouteResendsExactly(rows: Rows, f: ListFilter, since: Since, pages: seq<seq<string>>, top: Discussion,
                            id: string)
    requires SyncedWindow(rows, f, since, pages, top)
    ensures KeysetWalk.Concat(pages) == NewestFirst(Window(rows, f, since))
    ensures id in Window(rows, f, NextSince(since, pages, top)) <==>
              && id in Window(rows, f, since)
              && (pages[|pages| - 1] != [] ==> Before(CursorOf(top), PositionOf(rows[id])))
  {
    SyncedWindowIsComplete(rows, f, since, pages, top);
    if pages[|pages| - 1] != [] && id in rows {
      var cur := CursorOf(top);
      PagesAreParts(pages, top.discussionID);
      assert top.discussionID in Window(rows, f, since);
      CursorIsWholeMillis(top);
      WindowIsPositionOrder(rows, f, cur, id);
      if Before(cur, PositionOf(rows[id])) && Watched(rows[id], f) {
        PastTheWindowIsInIt(rows, f, since, cur, id);
      }
      if since.After? {
        WindowIsPositionOrder(rows, f, since.cur, id);
      }
    }
  }

  // ---------------------------------------------------------------- such a run

  function Creation(id: string, millis: int): Call {
    Call(Op.CreateDiscussion(CreateDiscussionInput("qa_p", "r", 0, 1, "note", "public", "", "", "b", "u", "")),
         FromMilli(millis), id)
  }

  function Row(id: string, millis: int): Discussion {
    NewDiscussion(Creation(id, millis).op.discussionInput, FromMilli(millis), id)
  }

  const EVERYTHING := ListFilter("qa_p", "", None, None, "", None, false, [], "", 2, ZERO_TIME, "")

  /** Three discussions created in this order, in different milliseconds. */
  const THREE := [Creation("a", 5), Creation("b", 6), Creation("c", 9)]

  const THREE_ROWS := map["a" := Row("a", 5), "b" := Row("b", 6), "c" := Row("c", 9)]

  lemma LettersAreOrdered()
    ensures Less("a", "b") && Less("b", "c") && Less("a", "c")
    ensures !Less("b", "a") && !Less("c", "b") && !Less("c", "a")
  {
    assert SmallerAt("a", "b", 0) && SmallerAt("b", "c", 0);
    Transitive("a", "b", "c");
    Asymmetric("a", "b");
    Asymmetric("b", "c");
    Asymmetric("a", "c");
  }

  lemma OneMoreCall(calls: seq<Call>, c: Call)
    requires ValidRun(calls) && NewID(Replay(calls), c)
    ensures ValidRun(calls + [c]) && Replay(calls + [c]) == Apply(Replay(calls), c).0
  {
    assert Init(calls + [c]) == calls;
  }

  function EditedRow(d: Discussion, c: Call): Discussion
    requires c.op.EditBody?
  {
    d.(body := c.op.newBody, revision := d.revision + 1, updatedAt := c.now)
  }

  predicate Edits(rows: Rows, c: Call, id: string) {
    c.op.EditBody? && c.op.target == OnDiscussion(id) && id in rows && rows[id].revision == c.op.expected
  }

  lemma OneEdit(calls: seq<Call>, rows: Rows, c: Call, id: string)
    requires ValidRun(calls) && Replay(calls).discussions == rows && Edits(rows, c, id)
    ensures ValidRun(calls + [c]) && Replay(calls + [c]).discussions == rows[id := EditedRow(rows[id], c)]
  {
    OneMoreCall(calls, c);
    EditsOneRow(Replay(calls), c, id);
  }

  lemma EditsOneRow(st: State, c: Call, id: string)
    requires Edits(st.discussions, c, id)
    ensures Apply(st, c).0.discussions == st.discussions[id := EditedRow(st.discussions[id], c)]
  {
  }

  lemma OneCreation(calls: seq<Call>, rows: Rows, c: Call)
    requires ValidRun(calls) && Replay(calls).discussions == rows && c.op.CreateDiscussion? && c.id !in rows
    ensures ValidRun(calls + [c])
    ensures Replay(calls + [c]).discussions == rows[c.id := NewDiscussion(c.op.discussionInput, c.now, c.id)]
  {
    OneMoreCall(calls, c);
  }

  lemma ThreeAreCreated()
    ensures ValidRun(THREE) && Replay(THREE).discussions == THREE_ROWS
  {
    OneCreation([], map[], THREE[0]);
    OneCreation([] + [THREE[0]], map["a" := Row("a", 5)], THREE[1]);
    OneCreation([] + [THREE[0]] + [THREE[1]], map["a" := Row("a", 5), "b" := Row("b", 6)], THREE[2]);
    assert [] + [THREE[0]] + [THREE[1]] + [THREE[2]] == THREE;
  }

  lemma LettersNewestFirst()
    ensures NewestFirst({"a"}) == ["a"]
    ensures NewestFirst({"a", "b"}) == ["b", "a"]
    ensures NewestFirst({"a", "b", "c"}) == ["c", "b", "a"]
  {
    LettersAreOrdered();
    DescendingIsUnique(NewestFirst({"a"}), ["a"]);
    DescendingIsUnique(NewestFirst({"a", "b"}), ["b", "a"]);
    DescendingIsUnique(NewestFirst({"a", "b", "c"}), ["c", "b", "a"]);
  }

  lemma ThreeMatch(f: ListFilter)
    requires f == EVERYTHING.(limit := f.limit)
    ensures MemMatching(THREE_ROWS, f) == {"a", "b", "c"} == PgMatching(THREE_ROWS, f)
  {
  }

  lemma BelowB(rows: Rows)
    requires Keyed(rows) && rows.Keys <= {"a", "b", "c"} && "a" in MemMatching(rows, EVERYTHING)
    ensures MemMatching(rows, EVERYTHING.(cursor := "b")) == {"a"}
  {
    LettersAreOrdered();
    Irreflexive("b");
    assert forall id :: id in MemMatching(rows, EVERYTHING.(cursor := "b")) ==> id == "a";
  }

  lemma ThreeAreListed()
    ensures MemPage(THREE_ROWS, EVERYTHING) == ["c", "b"]
    ensures MemPage(THREE_ROWS, EVERYTHING.(cursor := "b")) == ["a"]
  {
    ThreeMatch(EVERYTHING);
    BelowB(THREE_ROWS);
    LettersNewestFirst();
  }

  lemma OnePageWalk(rows: Rows, f: ListFilter, page: seq<string>)
    requires page == MemPage(rows, f)
    ensures KeysetWalk.Walk([rows], [page], f)
  {
  }

  lemma TwoPageWalk(rows: Rows, later: Rows, f: ListFilter, first: seq<string>, second: seq<string>)
    requires first == MemPage(rows, f) && first != [] && |first| == f.limit
    requires second == MemPage(later, f.(cursor := KeysetWalk.LastID(first)))
    ensures KeysetWalk.Walk([rows, later], [first, second], f)
  {
  }

  lemma ThreeAreWalked()
    ensures SyncedWindow(THREE_ROWS, EVERYTHING, FirstSync, [["c", "b"], ["a"]], Row("a", 5))
  {
    ThreeAreListed();
    TwoPageWalk(THREE_ROWS, THREE_ROWS, EVERYTHING, ["c", "b"], ["a"]);
    assert seq(2, _ => THREE_ROWS) == [THREE_ROWS, THREE_ROWS];
    assert AtSince(EVERYTHING, FirstSync) == EVERYTHING;
  }

  /** A client with two rows a page reads c and b, then a; its next poll, nothing having changed, brings c again. */
  lemma RouteResendsInARun()
    ensures ValidRun(THREE) && Replay(THREE).discussions == THREE_ROWS
    ensures SyncedWindow(THREE_ROWS, EVERYTHING, FirstSync, [["c", "b"], ["a"]], Row("a", 5))
    ensures "c" in Window(THREE_ROWS, EVERYTHING, NextSince(FirstSync, [["c", "b"], ["a"]], Row("a", 5)))
  {
    ThreeAreCreated();
    ThreeAreWalked();
    ThreeMatch(EVERYTHING);
    RouteResendsExactly(THREE_ROWS, EVERYTHING, FirstSync, [["c", "b"], ["a"]], Row("a", 5), "c");
    CursorIsWholeMillis(Row("a", 5));
  }

  /** Two rows of one millisecond, the one with the smaller id edited last: a single page, and b comes again. */
  const TWO := [Creation("a", 5), Creation("b", 5).(now := FromMilli(5) + 300),
                Call(EditBody(OnDiscussion("a"), 1, "c", "u"), FromMilli(5) + 600, "")]

  const TWO_ROWS := map["a" := Row("a", 5).(body := "c", revision := 2, updatedAt := FromMilli(5) + 600),
                        "b" := Row("b", 5).(createdAt := FromMilli(5) + 300, updatedAt := FromMilli(5) + 300)]

  lemma TwoAreStored()
    ensures ValidRun(TWO) && Replay(TWO).discussions == TWO_ROWS
  {
    var a, b := Row("a", 5), TWO_ROWS["b"];
    OneCreation([], map[], TWO[0]);
    OneCreation([] + [TWO[0]], map["a" := a], TWO[1]);
    OneEdit([] + [TWO[0]] + [TWO[1]], map["a" := a, "b" := b], TWO[2], "a");
    assert [] + [TWO[0]] + [TWO[1]] + [TWO[2]] == TWO;
  }

  lemma TwoMatch(f: ListFilter)
    requires f == EVERYTHING.(limit := 3)
    ensures MemMatching(TWO_ROWS, f) == {"a", "b"}
  {
  }

  lemma TwoAreWalked(f: ListFilter)
    requires f == EVERYTHING.(limit := 3)
    ensures SyncedWindow(TWO_ROWS, f, FirstSync, [["b", "a"]], TWO_ROWS["a"])
  {
    TwoMatch(f);
    LettersNewestFirst();
    OnePageWalk(TWO_ROWS, f, ["b", "a"]);
    assert seq(1, _ => TWO_ROWS) == [TWO_ROWS];
    assert AtSince(f, FirstSync) == f;
  }

  lemma SameMillisecond()
    ensures !RawBefore(TWO_ROWS["a"], TWO_ROWS["b"]) && Before(CursorOf(TWO_ROWS["a"]), PositionOf(TWO_ROWS["b"]))
  {
    LettersAreOrdered();
    CursorIsWholeMillis(TWO_ROWS["a"]);
  }

  /** The route picks a, the row with the larger time, and cuts it down to the millisecond that b shares. */
  lemma SameMillisecondResendsInARun()
    ensures var f, pages, top := EVERYTHING.(limit := 3), [["b", "a"]], TWO_ROWS["a"];
      && ValidRun(TWO) && Replay(TWO).discussions == TWO_ROWS
      && SyncedWindow(TWO_ROWS, f, FirstSync, pages, top) && !RawBefore(top, TWO_ROWS["b"])
      && "b" in Window(TWO_ROWS, f, NextSince(FirstSync, pages, top))
  {
    var f, pages, top := EVERYTHING.(limit := 3), [["b", "a"]], TWO_ROWS["a"];
    TwoAreStored();
    TwoAreWalked(f);
    SameMillisecond();
    TwoMatch(f);
    RouteResendsExactly(TWO_ROWS, f, FirstSync, pages, top, "b");
  }
}
