/** A since-window read page by page while calls go on: which rows the client is sent, which again, and which never. */
module SinceWindow {
  import opened CommentStore
  import opened CommentQueries
  import opened KeysetWalk
  import opened SinceCursor
  import opened SincePolling
  import opened WalkPages

  // ---------------------------------------------------------------- a window of the route

  /** A client reads one window to its end, whatever the store holds at each page; `top` is what the route picks from
      the last page when that page is not empty. */
  ghost predicate WindowRead(states: seq<Rows>, f: ListFilter, since: Since, pages: seq<seq<string>>, top: Discussion) {
    && UsableSince(since) && KeyedWalk(states, pages, AtSince(f, since)) && |pages[|pages| - 1]| < f.limit
    && (pages[|pages| - 1] != [] ==>
          && top.discussionID in pages[|pages| - 1] && CursorOf(top).time != ZERO_TIME
          && top.discussionID in states[|states| - 1] && states[|states| - 1][top.discussionID] == top)
  }

  /** Some page sent the row with these very contents. */
  ghost predicate Sent(states: seq<Rows>, pages: seq<seq<string>>, d: Discussion)
    requires |states| == |pages|
  {
    exists k :: 0 <= k < |pages| && d.discussionID in pages[k] && d.discussionID in states[k]
      && states[k][d.discussionID] == d
  }

  /** What the next poll brings, given the position of the last page's pick. */
  lemma NextWindow(last: Rows, f: ListFilter, since: Since, top: Discussion, late: Rows, id: string)
    requires UsableSince(since) && Keyed(last) && top.discussionID in Window(last, f, since)
    requires last[top.discussionID] == top
    requires CursorOf(top).time != ZERO_TIME && id in late && late[id].discussionID == id
    ensures id in Window(late, f, After(CursorOf(top)))
      <==> id in Window(late, f, since) && Before(CursorOf(top), PositionOf(late[id]))
  {
    var cur := CursorOf(top);
    CursorIsWholeMillis(top);
    WindowIsPositionOrder(late, f, cur, id);
    if since.After? {
      WindowIsPositionOrder(late, f, since.cur, id);
      WindowIsPositionOrder(last, f, since.cur, top.discussionID);
      BeforeIsStrictTotalOrder(since.cur, cur, PositionOf(late[id]));
    }
  }

  lemma SentExactly(states: seq<Rows>, f: ListFilter, since: Since, pages: seq<seq<string>>, top: Discussion,
                    late: Rows, id: string)
    requires WindowRead(states, f, since, pages, top) && id in late && late[id].discussionID == id
    ensures var n := PageFor(pages, id, 0);
      Sent(states, pages, late[id])
      <==> id in Window(late, f, since) && id in states[n] && states[n][id] == late[id]
  {
    forall k | 0 <= k < |pages|
      ensures id in pages[k] <==> k == PageFor(pages, id, 0) && id in Window(states[k], f, since)
    {
      ReturnedWithItsPage(states, pages, AtSince(f, since), id, k);
    }
  }

  /** For every row as it stands after a window was read, under any later table: the window sent it in this state
      exactly when it matches and had this state when the page that passes its id was read; the next poll sends it
      exactly when it matches and lies past the last page's pick, or that page was empty.  So a matching row is never
      sent, as long as it stands, exactly when it got this state after its page was read and does not lie past that
      pick. */
  lemma RouteSkipsExactly(states: seq<Rows>, f: ListFilter, since: Since, pages: seq<seq<string>>, top: Discussion,
                          late: Rows, id: string)
    requires WindowRead(states, f, since, pages, top) && id in late && late[id].discussionID == id
    ensures var atItsPage := states[PageFor(pages, id, 0)];
      var asSent := id in atItsPage && atItsPage[id] == late[id];
      var past := pages[|pages| - 1] == [] || Before(CursorOf(top), PositionOf(late[id]));
      var matches, sent := id in Window(late, f, since), Sent(states, pages, late[id]);
      var sentNext := id in Window(late, f, NextSince(since, pages, top));
      && (sent <==> matches && asSent) && (sentNext <==> matches && past)
      && (matches && !sent && !sentNext <==> matches && !asSent && !past)
  {
    SentExactly(states, f, since, pages, top, late, id);
    var last := |pages| - 1;
    if pages[last] != [] {
      PageMatches(states, pages, AtSince(f, since), last, top.discussionID);
      NextWindow(states[last], f, since, top, late, id);
    }
  }

  /** What one cursor leaves behind every later one does: cursors only advance. */
  lemma SkippedForGood(rows: Rows, f: ListFilter, cur: Cursor, top: Discussion, position: Cursor)
    requires WholeMillis(cur) && Keyed(rows) && top.discussionID in Window(rows, f, After(cur))
    requires rows[top.discussionID] == top
    requires !Before(cur, position)
    ensures !Before(CursorOf(top), position)
  {
    WindowIsPositionOrder(rows, f, cur, top.discussionID);
    CursorIsWholeMillis(top);
    BeforeIsStrictTotalOrder(cur, CursorOf(top), position);
  }

  // ---------------------------------------------------------------- such a run

  /** After the three discussions of `THREE`, between the two pages of a client's window, b and then a are edited. */
  const TWO_EDITS := [Call(EditBody(OnDiscussion("b"), 1, "c", "u"), FromMilli(10), ""),
                      Call(EditBody(OnDiscussion("a"), 1, "c", "u"), FromMilli(20), "")]

  const EDITED_A := Row("a", 5).(body := "c", revision := 2, updatedAt := FromMilli(20))
  const EDITED_B := Row("b", 6).(body := "c", revision := 2, updatedAt := FromMilli(10))
  const EDITED_ROWS := map["a" := EDITED_A, "b" := EDITED_B, "c" := Row("c", 9)]

  lemma EditsInTurn(calls: seq<Call>, rows: Rows, c: Call, x: string, d: Call, y: string)
    requires ValidRun(calls) && Replay(calls).discussions == rows && Edits(rows, c, x) && Edits(rows, d, y) && x != y
    ensures ValidRun(calls + [c] + [d])
    ensures Replay(calls + [c] + [d]).discussions == rows[x := EditedRow(rows[x], c)][y := EditedRow(rows[y], d)]
  {
    OneEdit(calls, rows, c, x);
    OneEdit(calls + [c], rows[x := EditedRow(rows[x], c)], d, y);
  }

  lemma TwoRowsReplaced(a: Discussion, b: Discussion, c: Discussion, x: Discussion, y: Discussion)
    ensures map["a" := a, "b" := b, "c" := c]["b" := x]["a" := y] == map["a" := y, "b" := x, "c" := c]
  {
  }

  lemma TwoAreEdited()
    ensures ValidRun(THREE + TWO_EDITS) && Replay(THREE + TWO_EDITS).discussions == EDITED_ROWS
  {
    ThreeAreCreated();
    EditsInTurn(THREE, THREE_ROWS, TWO_EDITS[0], "b", TWO_EDITS[1], "a");
    TwoRowsReplaced(Row("a", 5), Row("b", 6), Row("c", 9), EDITED_B, EDITED_A);
    assert THREE + [TWO_EDITS[0]] + [TWO_EDITS[1]] == THREE + TWO_EDITS;
  }

  lemma EditedIsListed()
    ensures MemPage(EDITED_ROWS, EVERYTHING.(cursor := "b")) == ["a"]
  {
    BelowB(EDITED_ROWS);
    LettersNewestFirst();
  }

  lemma WindowOfTwoPages()
    ensures WindowRead([THREE_ROWS, EDITED_ROWS], EVERYTHING, FirstSync, [["c", "b"], ["a"]], EDITED_A)
  {
    ThreeAreListed();
    EditedIsListed();
    TwoPageWalk(THREE_ROWS, EDITED_ROWS, EVERYTHING, ["c", "b"], ["a"]);
    assert AtSince(EVERYTHING, FirstSync) == EVERYTHING;
  }

  /** The edit of b is b's first change since the page that sent it, and lies behind a's position. */
  lemma EditOfBIsBehind()
    ensures PageFor([["c", "b"], ["a"]], "b", 0) == 0
    ensures "b" in Window(EDITED_ROWS, EVERYTHING, FirstSync) && EDITED_ROWS["b"] == EDITED_B != THREE_ROWS["b"]
    ensures !Before(CursorOf(EDITED_A), PositionOf(EDITED_B))
  {
    assert LastID([["c", "b"], ["a"]][0]) == "b";
    CursorIsWholeMillis(EDITED_A);
  }

  /** A client with two rows a page reads c and b before the edits and a after them, and is handed a's position: the
      edit of b, which matches its filter, was not sent and lies outside every later window. */
  lemma RouteSkipsInARun()
    ensures ValidRun(THREE) && Replay(THREE).discussions == THREE_ROWS
    ensures ValidRun(THREE + TWO_EDITS) && Replay(THREE + TWO_EDITS).discussions == EDITED_ROWS
    ensures var states, pages := [THREE_ROWS, EDITED_ROWS], [["c", "b"], ["a"]];
      && WindowRead(states, EVERYTHING, FirstSync, pages, EDITED_A)
      && "b" in Window(EDITED_ROWS, EVERYTHING, FirstSync) && !Sent(states, pages, EDITED_B)
      && "b" !in Window(EDITED_ROWS, EVERYTHING, NextSince(FirstSync, pages, EDITED_A))
  {
    var states, pages := [THREE_ROWS, EDITED_ROWS], [["c", "b"], ["a"]];
    ThreeAreCreated();
    TwoAreEdited();
    WindowOfTwoPages();
    EditOfBIsBehind();
    RouteSkipsExactly(states, EVERYTHING, FirstSync, pages, EDITED_A, EDITED_ROWS, "b");
  }
}
