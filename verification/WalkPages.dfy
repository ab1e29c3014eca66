/** The pages of a walk one by one, under any filter and whatever the store holds at each. */
module WalkPages {
  import opened Order
  import opened CommentQueries
  import opened KeysetWalk

  /** The page whose ids take in this one: the first that ends at or below it, or the last. */
  function PageFor(pages: seq<seq<string>>, id: string, n: nat): (k: nat)
    requires n < |pages|
    ensures n <= k < |pages|
    ensures k < |pages| - 1 ==> pages[k] != [] && AtMost(LastID(pages[k]), id)
    ensures forall j :: n <= j < k ==> !(pages[j] != [] && AtMost(LastID(pages[j]), id))
    decreases |pages| - n
  {
    if n == |pages| - 1 || (pages[n] != [] && AtMost(LastID(pages[n]), id)) then n else PageFor(pages, id, n + 1)
  }

  // ---------------------------------------------------------------- the pages of a walk

  /** The list cursor is the walk's own first one, or an id below it. */
  predicate Narrows(cursor: string, f: ListFilter) {
    cursor == f.cursor || (cursor != "" && (f.cursor == "" || Less(cursor, f.cursor)))
  }

  /** What a page holds: rows that match the walk's filter, and lie below the page's cursor. */
  lemma OnThePage(rows: Rows, f: ListFilter, cursor: string, x: string)
    requires f.limit > 0 && Keyed(rows) && Narrows(cursor, f)
    requires x in MemPage(rows, f.(cursor := cursor))
    ensures x in MemMatching(rows, f) && x != "" && Narrows(x, f) && (cursor != "" ==> Less(x, cursor))
    ensures AtMost(LastID(MemPage(rows, f.(cursor := cursor))), x)
  {
    PageCovers(MemMatching(rows, f.(cursor := cursor)), f.limit);
    if f.cursor != "" && cursor != f.cursor {
      Transitive(x, cursor, f.cursor);
    }
  }

  lemma LastOfAPage(page: seq<string>)
    requires page != []
    ensures LastID(page) in page
  {
  }

  /** The pages walked, each read from a table whose rows are filed under their own ids. */
  ghost predicate KeyedWalk(states: seq<Rows>, pages: seq<seq<string>>, f: ListFilter) {
    && f.limit > 0 && Walk(states, pages, f)
    && forall i :: 0 <= i < |states| ==> Keyed(states[i])
  }

  lemma {:induction false} CursorsNarrow(states: seq<Rows>, pages: seq<seq<string>>, f: ListFilter, n: nat)
    requires KeyedWalk(states, pages, f) && n < |pages|
    ensures n > 0 ==> pages[n - 1] != [] && LastID(pages[n - 1]) != ""
    ensures Narrows(PageFilter(pages, f, n).cursor, f)
  {
    if n > 0 {
      CursorsNarrow(states, pages, f, n - 1);
      assert ReadsPage(states, pages, f, n);
      assert ReadsPage(states, pages, f, n - 1);
      LastOfAPage(pages[n - 1]);
      OnThePage(states[n - 1], f, PageFilter(pages, f, n - 1).cursor, LastID(pages[n - 1]));
    }
  }

  lemma PageMatches(states: seq<Rows>, pages: seq<seq<string>>, f: ListFilter, n: nat, x: string)
    requires KeyedWalk(states, pages, f) && n < |pages| && x in pages[n]
    ensures x in MemMatching(states[n], f) && AtMost(LastID(pages[n]), x)
    ensures n > 0 ==> pages[n - 1] != [] && LastID(pages[n - 1]) in pages[n - 1] && Less(x, LastID(pages[n - 1]))
  {
    CursorsNarrow(states, pages, f, n);
    assert ReadsPage(states, pages, f, n);
    OnThePage(states[n], f, PageFilter(pages, f, n).cursor, x);
    if n > 0 {
      LastOfAPage(pages[n - 1]);
    }
  }

  /** The list goes down: a later page lies below the end of an earlier one. */
  lemma {:induction false} PagesDescend(states: seq<Rows>, pages: seq<seq<string>>, f: ListFilter, k: nat, n: nat,
                                        x: string)
    requires KeyedWalk(states, pages, f) && k < n < |pages| && x in pages[n]
    ensures pages[k] != [] && Less(x, LastID(pages[k]))
    decreases n
  {
    PageMatches(states, pages, f, n, x);
    if k < n - 1 {
      PagesDescend(states, pages, f, k, n - 1, LastID(pages[n - 1]));
      Transitive(x, LastID(pages[n - 1]), LastID(pages[k]));
    }
  }

  // ---------------------------------------------------------------- where a row is returned

  /** A finished walk returns a row with its own page only, and there exactly when it matches at that moment. */
  lemma ReturnedWithItsPage(states: seq<Rows>, pages: seq<seq<string>>, f: ListFilter, id: string, k: nat)
    requires KeyedWalk(states, pages, f) && |pages[|pages| - 1]| < f.limit && k < |pages|
    ensures id in pages[k] <==> k == PageFor(pages, id, 0) && id in MemMatching(states[k], f)
  {
    var n := PageFor(pages, id, 0);
    if id in pages[k] {
      PageMatches(states, pages, f, k, id);
      if n < k {
        PagesDescend(states, pages, f, n, k, id);
        Asymmetric(id, LastID(pages[n]));
        Irreflexive(id);
      }
    } else if k == n && id in MemMatching(states[n], f) {
      MatchingIsReturned(states, pages, f, id);
    }
  }

  /** A short page holds all it could, a full one all down to its last id. */
  lemma PageHolds(ids: set<string>, limit: nat, id: string)
    requires limit > 0 && id in ids
    ensures var page := Limited(NewestFirst(ids), limit);
      |page| < limit || (page != [] && AtMost(LastID(page), id)) ==> id in page
  {
    PageCovers(ids, limit);
    var page := Limited(NewestFirst(ids), limit);
    if id !in page {
      Asymmetric(id, LastID(page));
      Irreflexive(id);
    }
  }

  lemma MatchingIsReturned(states: seq<Rows>, pages: seq<seq<string>>, f: ListFilter, id: string)
    requires KeyedWalk(states, pages, f) && |pages[|pages| - 1]| < f.limit
    requires id in MemMatching(states[PageFor(pages, id, 0)], f)
    ensures id in pages[PageFor(pages, id, 0)]
  {
    var n := PageFor(pages, id, 0);
    assert ReadsPage(states, pages, f, n);
    if n > 0 {
      Total(id, LastID(pages[n - 1]));
    }
    PageHolds(MemMatching(states[n], PageFilter(pages, f, n)), f.limit, id);
  }

  // ---------------------------------------------------------------- how many pages

  lemma {:induction false} InSomePage(pages: seq<seq<string>>, n: nat, x: string) returns (k: nat)
    requires n <= |pages| && x in FirstPages(pages, n)
    ensures k < n && x in pages[k]
  {
    if x in pages[n - 1] {
      k := n - 1;
    } else {
      k := InSomePage(pages, n - 1, x);
    }
  }

  lemma {:induction false} DescendingFits(list: seq<string>, ids: set<string>)
    requires Descending(list) && forall x :: x in list ==> x in ids
    ensures |list| <= |ids|
  {
    if list != [] {
      var n := |list| - 1;
      forall x | x in list[..n] ensures x in ids - {list[n]} {
        Irreflexive(x);
      }
      DescendingFits(list[..n], ids - {list[n]});
    }
  }

  /** A row that was returned and kept still matches a filter on what calls never change. */
  lemma ReturnedStillMatches(states: seq<Rows>, pages: seq<seq<string>>, f: ListFilter, late: Rows, x: string)
    requires StableFilter(f) && KeyedWalk(states, pages, f) && x in Concat(pages)
    requires forall i :: 0 <= i < |states| ==> Keeps(states[i], late)
    ensures x in MemMatching(late, f)
  {
    var k := InSomePage(pages, |pages|, x);
    PageMatches(states, pages, f, k, x);
    assert Keeps(states[k], late);
  }

  /** Rows are kept: pages that are all full hold no more rows together than match in the last table read. */
  lemma FullPagesFit(states: seq<Rows>, pages: seq<seq<string>>, f: ListFilter)
    requires StableFilter(f) && KeyedWalk(states, pages, f)
    requires forall i :: 0 <= i < |states| ==> Keeps(states[0], states[i]) && Keeps(states[i], states[|states| - 1])
    requires forall k :: 0 <= k < |pages| ==> |pages[k]| == f.limit
    ensures f.limit * |pages| <= |MemMatching(states[|states| - 1], f)|
  {
    WalkCovers(states, pages, f);
    forall x | x in Concat(pages) ensures x in MemMatching(states[|states| - 1], f) {
      ReturnedStillMatches(states, pages, f, states[|states| - 1], x);
    }
    DescendingFits(Concat(pages), MemMatching(states[|states| - 1], f));
    FullPagesLength(pages, |pages|, f.limit);
  }
}
