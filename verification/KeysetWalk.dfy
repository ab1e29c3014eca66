/** Paging through the discussion list with the keyset cursor while the store keeps changing. */
module KeysetWalk {
  import opened Order
  import opened CommentStore
  import opened CommentQueries
  import opened SinceCursor

  type Rows = map<string, Discussion>

  /** Filters only on columns no call changes; the limit is positive, as both stores' callers send it. */
  predicate StableFilter(f: ListFilter) {
    f.status.None? && !f.statusIsNull && f.since == ZERO_TIME && f.limit > 0
  }

  /** Rows may be edited, re-statused and added, never removed or re-anchored. */
  ghost predicate Keeps(early: Rows, late: Rows) {
    && (forall id :: id in early ==> id in late && SameAnchor(early[id], late[id]))
    && (forall id :: id in late ==> late[id].discussionID == id)
    && (forall id :: id in early ==> early[id].discussionID == id)
  }

  /** ... and every row added sorts after every row there was (ids.go's monotonic ids). */
  ghost predicate Evolves(early: Rows, late: Rows) {
    Keeps(early, late) && forall prior, id :: prior in early && id in late && id !in early ==> Less(prior, id)
  }

  function LastID(page: seq<string>): string
    requires page != []
  {
    page[|page| - 1]
  }

  /** The filter that page n of a walk is asked for with. */
  function PageFilter(pages: seq<seq<string>>, f: ListFilter, n: nat): ListFilter
    requires n < |pages| && (n > 0 ==> pages[n - 1] != [])
  {
    if n == 0 then f else f.(cursor := LastID(pages[n - 1]))
  }

  /** Page n is the store's answer at that moment, after a full page before it. */
  ghost predicate ReadsPage(states: seq<Rows>, pages: seq<seq<string>>, f: ListFilter, n: nat)
    requires n < |pages| == |states|
  {
    && (n > 0 ==> pages[n - 1] != [] && |pages[n - 1]| == f.limit)
    && pages[n] == MemPage(states[n], PageFilter(pages, f, n))
  }

  /** The pages of one walk: each full page sends the reader on from its last id, whatever the store
      holds by then. */
  ghost predicate Walk(states: seq<Rows>, pages: seq<seq<string>>, f: ListFilter) {
    |states| == |pages| > 0 && forall n: nat :: n < |pages| ==> ReadsPage(states, pages, f, n)
  }

  /** The first n pages, one after the other. */
  ghost function FirstPages(pages: seq<seq<string>>, n: nat): seq<string>
    requires n <= |pages|
  {
    if n == 0 then [] else FirstPages(pages, n - 1) + pages[n - 1]
  }

  ghost function Concat(pages: seq<seq<string>>): seq<string> {
    FirstPages(pages, |pages|)
  }

  ghost function BelowID(ids: set<string>, id: string): set<string> {
    set x | x in ids && Less(x, id)
  }

  // ---------------------------------------------------------------- one page

  lemma TailIsBelow(all: seq<string>, n: nat, x: string)
    requires Descending(all) && 0 < n <= |all|
    ensures x in all[n..] <==> x in all && Less(x, all[n - 1])
  {
    if x in all[n..] {
      var i :| 0 <= i < |all[n..]| && all[n..][i] == x;
      assert all[n + i] == x;
    }
    if x in all && Less(x, all[n - 1]) {
      var i :| 0 <= i < |all| && all[i] == x;
      Asymmetric(x, all[n - 1]);
      Irreflexive(x);
      assert all[n..][i - n] == x;
    }
  }

  lemma TailIsDescending(all: seq<string>, n: nat)
    requires Descending(all) && n <= |all|
    ensures Descending(all[n..])
  {
  }

  /** A full page and what sorts below its last id make up the whole list. */
  lemma PageSplitsList(ids: set<string>, limit: nat)
    requires 0 < limit <= |ids|
    ensures var page := Limited(NewestFirst(ids), limit);
            |page| == limit && LastID(page) in ids && NewestFirst(ids) == page + NewestFirst(BelowID(ids, LastID(page)))
  {
    var all := NewestFirst(ids);
    var page, rest := all[..limit], all[limit..];
    assert Limited(all, limit) == page && all == page + rest && LastID(page) == all[limit - 1];
    TailIsDescending(all, limit);
    forall x ensures x in rest <==> x in NewestFirst(BelowID(ids, LastID(page))) {
      TailIsBelow(all, limit, x);
    }
    DescendingIsUnique(rest, NewestFirst(BelowID(ids, LastID(page))));
  }

  /** Below an id that was there at the start, the store lists what it listed at the start. */
  lemma OldRowsOnly(early: Rows, late: Rows, f: ListFilter, id: string)
    requires StableFilter(f) && Evolves(early, late) && id in MemMatching(early, f) && id != ""
    ensures MemMatching(late, f.(cursor := id)) == BelowID(MemMatching(early, f), id)
  {
    forall x ensures x in MemMatching(late, f.(cursor := id)) <==> x in BelowID(MemMatching(early, f), id) {
      if x in late && Less(x, id) {
        if x !in early {
          Asymmetric(x, id);
        }
        if f.cursor != "" {
          Transitive(x, id, f.cursor);
        }
      }
    }
  }

  // ---------------------------------------------------------------- the whole walk

  /** What was returned so far, then what is still below the cursor, is the list of the first store. */
  ghost predicate Covers(start: set<string>, returned: seq<string>, page: seq<string>, limit: int) {
    if page != [] && |page| == limit then
      LastID(page) in start && NewestFirst(start) == returned + NewestFirst(BelowID(start, LastID(page)))
    else
      NewestFirst(start) == returned
  }

  lemma FirstPage(start: set<string>, limit: nat)
    requires limit > 0
    ensures var page := Limited(NewestFirst(start), limit); Covers(start, page, page, limit)
  {
    if limit <= |start| {
      PageSplitsList(start, limit);
    }
  }

  lemma BelowTwice(ids: set<string>, high: string, low: string)
    requires Less(low, high)
    ensures BelowID(BelowID(ids, high), low) == BelowID(ids, low)
  {
    forall x | x in BelowID(ids, low) ensures x in BelowID(ids, high) {
      Transitive(x, low, high);
    }
  }

  lemma NextPage(start: set<string>, returned: seq<string>, cursor: string, limit: nat)
    requires limit > 0 && cursor in start && NewestFirst(start) == returned + NewestFirst(BelowID(start, cursor))
    ensures var page := Limited(NewestFirst(BelowID(start, cursor)), limit); Covers(start, returned + page, page, limit)
  {
    var rest := BelowID(start, cursor);
    var all := NewestFirst(rest);
    var page := Limited(all, limit);
    if |page| == limit {
      PageSplitsList(rest, limit);
      BelowTwice(start, cursor, LastID(page));
      var tail := NewestFirst(BelowID(start, LastID(page)));
      assert returned + (page + tail) == (returned + page) + tail;
    } else {
      assert page == all;
    }
  }

  /** The next page of a covering walk. */
  lemma CoversOn(start: set<string>, returned: seq<string>, before: seq<string>, limit: nat, found: set<string>)
    requires limit > 0 && before != [] && |before| == limit && Covers(start, returned, before, limit)
    requires found == BelowID(start, LastID(before))
    ensures var page := Limited(NewestFirst(found), limit); Covers(start, returned + page, page, limit)
  {
    NextPage(start, returned, LastID(before), limit);
  }

  lemma OnePage(pages: seq<seq<string>>)
    requires pages != []
    ensures FirstPages(pages, 1) == pages[0]
  {
  }

  lemma {:induction false} WalkSoFar(states: seq<Rows>, pages: seq<seq<string>>, f: ListFilter, n: nat)
    requires StableFilter(f) && Walk(states, pages, f) && n < |pages|
    requires forall i :: 0 <= i < |states| ==> Evolves(states[0], states[i])
    requires "" !in states[0]
    ensures Covers(MemMatching(states[0], f), FirstPages(pages, n + 1), pages[n], f.limit)
  {
    assert ReadsPage(states, pages, f, n);
    if n == 0 {
      OnePage(pages);
      FirstPage(MemMatching(states[0], f), f.limit);
    } else {
      WalkSoFar(states, pages, f, n - 1);
      NextPageCovers(states[0], states[n], f, FirstPages(pages, n), pages[n - 1]);
    }
  }

  lemma WholeWalk(states: seq<Rows>, pages: seq<seq<string>>, f: ListFilter)
    requires StableFilter(f) && Walk(states, pages, f)
    requires forall i :: 0 <= i < |states| ==> Evolves(states[0], states[i])
    requires "" !in states[0]
    ensures Covers(MemMatching(states[0], f), Concat(pages), pages[|pages| - 1], f.limit)
  {
    WalkSoFar(states, pages, f, |pages| - 1);
  }

  lemma NextPageCovers(early: Rows, late: Rows, f: ListFilter, returned: seq<string>, before: seq<string>)
    requires StableFilter(f) && Evolves(early, late) && "" !in early && before != [] && |before| == f.limit
    requires Covers(MemMatching(early, f), returned, before, f.limit)
    ensures var page := MemPage(late, f.(cursor := LastID(before)));
      Covers(MemMatching(early, f), returned + page, page, f.limit)
  {
    OldRowsOnly(early, late, f, LastID(before));
    CoversOn(MemMatching(early, f), returned, before, f.limit, MemMatching(late, f.(cursor := LastID(before))));
  }

  /** A finished walk returns exactly the rows that matched when its first page was read, each once and
      newest first, whatever was created, edited, replied to or re-statused in between. */
  lemma FinishedWalkIsASnapshot(states: seq<Rows>, pages: seq<seq<string>>, f: ListFilter)
    requires StableFilter(f) && Walk(states, pages, f)
    requires forall i :: 0 <= i < |states| ==> Evolves(states[0], states[i])
    requires "" !in states[0]
    requires |pages[|pages| - 1]| < f.limit
    ensures Concat(pages) == NewestFirst(MemMatching(states[0], f))
  {
    WholeWalk(states, pages, f);
  }

  lemma BelowTheCursor(rows: Rows, f: ListFilter, cursor: string)
    requires f.cursor == "" && cursor != "" && forall id :: id in rows ==> rows[id].discussionID == id
    ensures MemMatching(rows, f.(cursor := cursor)) == BelowID(MemMatching(rows, f), cursor)
  {
  }

  /** A walk over a table that does not change, under any filter. */
  lemma {:induction false} UndisturbedSoFar(rows: Rows, states: seq<Rows>, pages: seq<seq<string>>, f: ListFilter,
                                            n: nat)
    requires f.limit > 0 && f.cursor == "" && Walk(states, pages, f) && n < |pages|
    requires Keyed(rows) && forall i :: 0 <= i < |states| ==> states[i] == rows
    ensures Covers(MemMatching(rows, f), FirstPages(pages, n + 1), pages[n], f.limit)
  {
    var all := MemMatching(rows, f);
    assert ReadsPage(states, pages, f, n);
    if n == 0 {
      OnePage(pages);
      FirstPage(all, f.limit);
    } else {
      UndisturbedSoFar(rows, states, pages, f, n - 1);
      var cursor := LastID(pages[n - 1]);
      BelowTheCursor(rows, f, cursor);
      CoversOn(all, FirstPages(pages, n), pages[n - 1], f.limit, MemMatching(rows, f.(cursor := cursor)));
    }
  }

  lemma UndisturbedWalk(rows: Rows, states: seq<Rows>, pages: seq<seq<string>>, f: ListFilter)
    requires f.limit > 0 && f.cursor == "" && Walk(states, pages, f)
    requires Keyed(rows) && forall i :: 0 <= i < |states| ==> states[i] == rows
    ensures Covers(MemMatching(rows, f), Concat(pages), pages[|pages| - 1], f.limit)
  {
    UndisturbedSoFar(rows, states, pages, f, |pages| - 1);
  }

  lemma {:induction false} FullPagesLength(pages: seq<seq<string>>, n: nat, limit: nat)
    requires n <= |pages| && forall i :: 0 <= i < |pages| ==> |pages[i]| == limit
    ensures |FirstPages(pages, n)| == limit * n
  {
    if n > 0 {
      FullPagesLength(pages, n - 1, limit);
    }
  }

  /** The walk terminates: it never reads more full pages than the first page's store had rows for. */
  lemma WalkTerminates(states: seq<Rows>, pages: seq<seq<string>>, f: ListFilter)
    requires StableFilter(f) && Walk(states, pages, f)
    requires forall i :: 0 <= i < |states| ==> Evolves(states[0], states[i])
    requires "" !in states[0]
    requires forall i :: 0 <= i < |pages| ==> |pages[i]| == f.limit
    ensures f.limit * |pages| <= |MemMatching(states[0], f)|
  {
    WholeWalk(states, pages, f);
    FullPagesLength(pages, |pages|, f.limit);
  }

  // ---------------------------------------------------------------- without monotonic commits

  /** `returned` is in order, ends at the page's last id, and holds every row of the start that is not
      below a full page's last id. */
  ghost predicate Reaches(start: set<string>, returned: seq<string>, page: seq<string>, limit: int) {
    && Descending(returned)
    && (page != [] ==> LastID(page) != "" && forall x :: x in returned ==> AtMost(LastID(page), x))
    && (forall x :: x in start && x !in returned ==> page != [] && |page| == limit && Less(x, LastID(page)))
  }

  lemma PagesAppend(found: set<string>, start: set<string>, returned: seq<string>, before: seq<string>, limit: nat)
    requires limit > 0 && "" !in found && before != [] && Reaches(start, returned, before, limit)
    requires forall x :: x in found ==> Less(x, LastID(before))
    requires forall x :: x in start && Less(x, LastID(before)) ==> x in found
    ensures var page := Limited(NewestFirst(found), limit); Reaches(start, returned + page, page, limit)
  {
    var page := Limited(NewestFirst(found), limit);
    PageCovers(found, limit);
    var both := returned + page;
    forall i, j | 0 <= i < j < |both| ensures Less(both[j], both[i]) {
      if i < |returned| <= j {
        assert returned[i] in returned && page[j - |returned|] in page;
        LessAtMost(page[j - |returned|], LastID(before), returned[i]);
      }
    }
    if page != [] {
      assert LastID(page) in page;
      forall x | x in both ensures AtMost(LastID(page), x) {
        if x in returned { LessAtMost(LastID(page), LastID(before), x); }
      }
    }
  }

  /** Rows of the start below the cursor are still there and still match. */
  lemma KeptRowsAreFound(early: Rows, late: Rows, f: ListFilter, cursor: string)
    requires StableFilter(f) && Keeps(early, late) && cursor != "" && "" !in late
    ensures var found := MemMatching(late, f.(cursor := cursor));
      && "" !in found
      && (forall x :: x in found ==> Less(x, cursor))
      && forall x :: x in MemMatching(early, f) && Less(x, cursor) ==> x in found
  {
  }

  /** Without the order on new ids (PostgreSQL may commit a smaller id late) a walk still returns every
      row of the start at most once, in order, and misses none at or above the cursor. */
  lemma {:induction false} ReachesSoFar(states: seq<Rows>, pages: seq<seq<string>>, f: ListFilter, n: nat)
    requires StableFilter(f) && Walk(states, pages, f) && n < |pages|
    requires forall i :: 0 <= i < |states| ==> Keeps(states[0], states[i]) && "" !in states[i]
    ensures Reaches(MemMatching(states[0], f), FirstPages(pages, n + 1), pages[n], f.limit)
  {
    assert ReadsPage(states, pages, f, n);
    if n == 0 {
      OnePage(pages);
      FirstPageReaches(states[0], f);
    } else {
      ReachesSoFar(states, pages, f, n - 1);
      NextPageReaches(states[0], states[n], f, FirstPages(pages, n), pages[n - 1]);
    }
  }

  lemma FirstPageReaches(rows: Rows, f: ListFilter)
    requires StableFilter(f) && "" !in rows
    ensures Reaches(MemMatching(rows, f), MemPage(rows, f), MemPage(rows, f), f.limit)
  {
    var page := MemPage(rows, f);
    PageCovers(MemMatching(rows, f), f.limit);
    assert page != [] ==> LastID(page) in page;
  }

  lemma WalkCovers(states: seq<Rows>, pages: seq<seq<string>>, f: ListFilter)
    requires StableFilter(f) && Walk(states, pages, f)
    requires forall i :: 0 <= i < |states| ==> Keeps(states[0], states[i]) && "" !in states[i]
    ensures Reaches(MemMatching(states[0], f), Concat(pages), pages[|pages| - 1], f.limit)
  {
    ReachesSoFar(states, pages, f, |pages| - 1);
  }

  lemma NextPageReaches(early: Rows, late: Rows, f: ListFilter, returned: seq<string>, before: seq<string>)
    requires StableFilter(f) && Keeps(early, late) && "" !in late && before != [] && |before| == f.limit
    requires Reaches(MemMatching(early, f), returned, before, f.limit)
    ensures var page := MemPage(late, f.(cursor := LastID(before)));
      Reaches(MemMatching(early, f), returned + page, page, f.limit)
  {
    var found := MemMatching(late, f.(cursor := LastID(before)));
    KeptRowsAreFound(early, late, f, LastID(before));
    PagesAppend(found, MemMatching(early, f), returned, before, f.limit);
  }

  lemma LessAtMost(a: string, b: string, c: string)
    requires Less(a, b) && AtMost(b, c)
    ensures Less(a, c)
  {
    if b != c { Transitive(a, b, c); }
  }

  lemma PageCovers(ids: set<string>, limit: nat)
    requires limit > 0
    ensures var page := Limited(NewestFirst(ids), limit);
            && Descending(page)
            && (page != [] ==> forall x :: x in page ==> AtMost(LastID(page), x))
            && (forall x :: x in page ==> x in ids)
            && (forall x :: x in ids && x !in page ==> page != [] && |page| == limit && Less(x, LastID(page)))
  {
    var all := NewestFirst(ids);
    var page := Limited(all, limit);
    forall x | x in page ensures x in ids && AtMost(LastID(page), x) {
      var i :| 0 <= i < |page| && page[i] == x;
      assert all[i] == x;
    }
    forall x | x in ids && x !in page ensures page != [] && |page| == limit && Less(x, LastID(page)) {
      assert x in all;
      var i :| 0 <= i < |all| && all[i] == x;
      assert page <= all;
    }
  }

  /** Every row of the start is returned exactly once by a finished walk, even then. */
  lemma FinishedWalkMissesNothing(states: seq<Rows>, pages: seq<seq<string>>, f: ListFilter)
    requires StableFilter(f) && Walk(states, pages, f)
    requires forall i :: 0 <= i < |states| ==> Keeps(states[0], states[i]) && "" !in states[i]
    requires |pages[|pages| - 1]| < f.limit
    ensures Descending(Concat(pages))
    ensures forall x :: x in MemMatching(states[0], f) ==> x in Concat(pages)
  {
    WalkCovers(states, pages, f);
  }

  // ---------------------------------------------------------------- the store evolves

  lemma {:induction false} PrefixIsValid(calls: seq<Call>, n: nat)
    requires ValidRun(calls) && n <= |calls|
    ensures ValidRun(calls[..n])
    decreases |calls|
  {
    if n < |calls| {
      assert Init(calls)[..n] == calls[..n];
      PrefixIsValid(Init(calls), n);
    } else {
      assert calls[..n] == calls;
    }
  }

  /** The store after the first n calls of a run. */
  ghost function After(calls: seq<Call>, n: nat): State
    requires ValidRun(calls) && n <= |calls|
  {
    PrefixIsValid(calls, n);
    Replay(calls[..n])
  }

  /** Every discussion is created with a nonempty id that sorts after all there are (ids.go's monotonic ids). */
  ghost predicate IncreasingIDs(calls: seq<Call>)
    requires ValidRun(calls)
  {
    forall n :: 0 <= n < |calls| && calls[n].op.CreateDiscussion? ==>
      calls[n].id != "" && forall id :: id in After(calls, n).discussions ==> Less(id, calls[n].id)
  }

  lemma NextCall(calls: seq<Call>, n: nat)
    requires ValidRun(calls) && n < |calls|
    ensures NewID(After(calls, n), calls[n]) && After(calls, n + 1) == Apply(After(calls, n), calls[n]).0
  {
    PrefixIsValid(calls, n + 1);
    assert Init(calls[..n + 1]) == calls[..n];
  }

  lemma EvolvesIsTransitive(a: Rows, b: Rows, c: Rows)
    requires Evolves(a, b) && Evolves(b, c)
    ensures Evolves(a, c)
  {
  }

  lemma StepEvolves(st: State, c: Call)
    requires WellFormed(st) && NewID(st, c)
    requires c.op.CreateDiscussion? ==> forall id :: id in st.discussions ==> Less(id, c.id)
    ensures Evolves(st.discussions, Apply(st, c).0.discussions)
  {
    StepKeepsWellFormed(st, c);
    var late := Apply(st, c).0;
    forall id | id in st.discussions
      ensures id in late.discussions && SameAnchor(st.discussions[id], late.discussions[id])
    {
      EffectOnDiscussion(st, c, id);
    }
    forall prior, id | prior in st.discussions && id in late.discussions && id !in st.discussions
      ensures Less(prior, id)
    {
      OnlyCreationAddsRows(st, c, id);
    }
  }

  lemma {:induction false} NoEmptyID(calls: seq<Call>, n: nat)
    requires ValidRun(calls) && IncreasingIDs(calls) && n <= |calls|
    ensures "" !in After(calls, n).discussions
  {
    if n > 0 {
      NoEmptyID(calls, n - 1);
      NextCall(calls, n - 1);
      if "" in After(calls, n).discussions {
        OnlyCreationAddsRows(After(calls, n - 1), calls[n - 1], "");
      }
    } else {
      assert calls[..0] == [];
    }
  }

  lemma EvolvesFromItself(st: State)
    requires WellFormed(st)
    ensures Evolves(st.discussions, st.discussions)
  {
  }

  /** A run with increasing ids evolves the discussion table as the walk needs, between any two points. */
  lemma {:induction false} RunsEvolve(calls: seq<Call>, i: nat, j: nat)
    requires ValidRun(calls) && IncreasingIDs(calls) && i <= j <= |calls|
    ensures Evolves(After(calls, i).discussions, After(calls, j).discussions)
    decreases j
  {
    if i < j {
      RunsEvolve(calls, i, j - 1);
      NextCall(calls, j - 1);
      StepEvolves(After(calls, j - 1), calls[j - 1]);
      EvolvesIsTransitive(After(calls, i).discussions, After(calls, j - 1).discussions, After(calls, j).discussions);
    } else {
      EvolvesFromItself(After(calls, i));
    }
  }

  /** Each page is read after some number of the run's calls, later pages not earlier. */
  ghost predicate ReadAt(calls: seq<Call>, at: seq<nat>, states: seq<Rows>)
    requires ValidRun(calls)
  {
    && |at| == |states| && (forall i :: 0 <= i < |at| ==> at[i] <= |calls|)
    && (forall i, j :: 0 <= i < j < |at| ==> at[i] <= at[j])
    && forall i :: 0 <= i < |at| ==> states[i] == After(calls, at[i]).discussions
  }

  /** In any run with increasing ids, a finished walk whose pages are read at any points of the run returns exactly the
      rows that matched at the first point, each once and newest first. */
  lemma WalkOverARunIsASnapshot(calls: seq<Call>, at: seq<nat>, states: seq<Rows>, pages: seq<seq<string>>,
                                f: ListFilter)
    requires ValidRun(calls) && IncreasingIDs(calls) && ReadAt(calls, at, states)
    requires StableFilter(f) && Walk(states, pages, f) && |pages[|pages| - 1]| < f.limit
    ensures Concat(pages) == NewestFirst(MemMatching(After(calls, at[0]).discussions, f))
  {
    forall i | 0 <= i < |states| ensures Evolves(states[0], states[i]) {
      RunsEvolve(calls, at[0], at[i]);
    }
    NoEmptyID(calls, at[0]);
    FinishedWalkIsASnapshot(states, pages, f);
  }

  lemma OnlyCreationAddsRows(st: State, c: Call, id: string)
    requires id in Apply(st, c).0.discussions && id !in st.discussions
    ensures c.op.CreateDiscussion? && id == c.id
  {
    match c.op
    case CreateDiscussion(input) =>
    case CreateReply(input) =>
    case SetStatus(other, to, reason, actor) =>
    case EditBody(t, expected, newBody, editor) =>
      match t { case OnDiscussion(other) => case OnReply(other) => }
  }
}
