/** `papers backfill-metadata`: the keyset loop over untitled papers, for both sources.  What each
    query sees, how each fetch ends and what each update answers is up to the environment. */
module Backfill {
  import opened Sorting
  import opened Options

  /** Paper ids by their place in the order of paper_id; 0 is the empty id no paper has. */
  type PaperID = nat

  /** A query's result set: the untitled papers by id, each with the arXiv id or DOI to fetch by. */
  type Table = map<PaperID, string>

  datatype Metadata = Metadata(title: string, externalID: string)

  datatype Flags = Flags(batch: nat, limit: nat, dryRun: bool)

  /** One round of the loop: `fetch` is what fetchWithRetry returns, `update` whether UpdateMetadata
      succeeds for a paper and claimed its external id. */
  datatype Round = Round(
    table: Table, listFails: bool, interruptedWaiting: bool, interruptedFetching: bool,
    fetch: Option<map<string, Metadata>>, update: PaperID -> Option<bool>)

  datatype Mark = Missing | Updated(claimed: bool) | UpdateFailed

  /** A row the loop has passed, in which round, and what became of it. */
  datatype Entry = Entry(id: PaperID, round: nat, mark: Mark)

  datatype Counts = Counts(processed: nat, updated: nat, missing: nat, claimed: nat)

  datatype End = Exhausted | Interrupted | ListError | UpdateError

  // ---------------------------------------------------------------- the listing

  /** ORDER BY paper_id LIMIT: the smallest ids above the cursor. */
  ghost predicate IsPage(table: Table, after: PaperID, limit: nat, page: seq<PaperID>) {
    && Ascending(page) && |page| <= limit
    && (forall id :: id in page ==> id in table && after < id)
    && forall id :: id in table && after < id && id !in page
         ==> |page| == limit && forall shown :: shown in page ==> shown < id
  }

  ghost predicate Ascending(s: seq<PaperID>) {
    forall i, j :: 0 <= i < j < |s| ==> s[i] < s[j]
  }

  lemma {:induction false} LargestExists(ids: set<PaperID>) returns (m: PaperID)
    requires ids != {}
    ensures m in ids && forall x :: x in ids ==> x <= m
  {
    var y :| y in ids;
    if ids == {y} {
      m := y;
    } else {
      var rest := LargestExists(ids - {y});
      m := if rest < y then y else rest;
      assert ids == (ids - {y}) + {y};
    }
  }

  /** The ids in ascending order. */
  ghost function InOrder(ids: set<PaperID>): (s: seq<PaperID>)
    ensures Ascending(s) && forall id :: id in s <==> id in ids
  {
    if ids == {} then []
    else
      assert exists m :: m in ids && forall x :: x in ids ==> x <= m by { var m := LargestExists(ids); }
      var m :| m in ids && forall x :: x in ids ==> x <= m;
      InOrder(ids - {m}) + [m]
  }

  /** What the query returns. */
  ghost function Page(table: Table, after: PaperID, limit: nat): (page: seq<PaperID>)
    ensures IsPage(table, after, limit, page)
  {
    PageExists(table, after, limit);
    var page :| IsPage(table, after, limit, page);
    page
  }

  lemma PageExists(table: Table, after: PaperID, limit: nat)
    ensures exists page :: IsPage(table, after, limit, page)
  {
    PrefixIsPage(table, after, limit, InOrder(set id | id in table && after < id));
  }

  /** Two pages of one query have the same rows: a row of one that the other lacks would be above all of the other's. */
  lemma PageIsUnique(table: Table, after: PaperID, limit: nat, p: seq<PaperID>, q: seq<PaperID>)
    requires IsPage(table, after, limit, p) && IsPage(table, after, limit, q)
    ensures p == q
  {
    forall id | id in q ensures id in p {
      if id !in p { PageHoldsTheSmallest(table, after, limit, p, q, id); }
    }
    forall id | id in p ensures id in q {
      if id !in q { PageHoldsTheSmallest(table, after, limit, q, p, id); }
    }
    AscendingIsUnique(p, q);
  }

  lemma PageHoldsTheSmallest(table: Table, after: PaperID, limit: nat, p: seq<PaperID>, q: seq<PaperID>, id: PaperID)
    requires IsPage(table, after, limit, p) && IsPage(table, after, limit, q) && id in q
    ensures id in p
  {
    if id !in p {
      forall x | x in p ensures x in q && x != id {
        if x !in q {
          assert false;
        }
      }
      SmallerPage(p, q, id);
    }
  }

  lemma {:induction false} SmallerPage(p: seq<PaperID>, q: seq<PaperID>, id: PaperID)
    requires Ascending(p) && id in q && forall x :: x in p ==> x in q && x != id
    ensures |p| < |q|
  {
    if p != [] {
      var n := |p| - 1;
      WithoutLast(p, n);
      assert p[n] in p;
      var k :| 0 <= k < |q| && q[k] == p[n];
      var rest := q[..k] + q[k + 1..];
      assert q == q[..k] + [q[k]] + q[k + 1..];
      SmallerPage(p[..n], rest, id);
    }
  }

  lemma {:induction false} AscendingIsUnique(s: seq<PaperID>, t: seq<PaperID>)
    requires Ascending(s) && Ascending(t) && forall id :: id in s <==> id in t
    ensures s == t
  {
    if s == [] {
      if t != [] {
        NotEmpty(t);
        assert false;
      }
    } else {
      var n, m := |s| - 1, |t| - 1;
      assert s[0] in t;
      assert s[n] in t && t[m] in s;
      WithoutLast(s, n);
      WithoutLast(t, m);
      AscendingIsUnique(s[..n], t[..m]);
      assert s == s[..n] + [s[n]] && t == t[..m] + [t[m]];
    }
  }

  lemma NotEmpty(s: seq<PaperID>)
    requires s != []
    ensures exists id :: id in s
  {
    assert s[0] in s;
  }

  lemma WithoutLast(s: seq<PaperID>, n: nat)
    requires Ascending(s) && |s| == n + 1
    ensures forall id :: id in s[..n] <==> id in s && id != s[n]
    ensures forall id :: id in s ==> id <= s[n]
  {
    assert s == s[..n] + [s[n]];
  }

  function Smaller(): (PaperID, PaperID) -> bool {
    (a: PaperID, b: PaperID) => a < b
  }

  lemma SortedDistinctIsAscending(s: seq<PaperID>)
    requires SortedBy(s, Smaller()) && forall i, j :: 0 <= i < j < |s| ==> s[i] != s[j]
    ensures Ascending(s)
  {
    forall i, j | 0 <= i < j < |s| ensures s[i] < s[j] {
      assert !Smaller()(s[j], s[i]);
    }
  }

  lemma PrefixIsPage(table: Table, after: PaperID, limit: nat, all: seq<PaperID>)
    requires Ascending(all) && forall id :: id in all <==> id in table && after < id
    ensures IsPage(table, after, limit, all[..if |all| < limit then |all| else limit])
  {
    var n := if |all| < limit then |all| else limit;
    forall id | id in all[..n] ensures id in table && after < id {
      assert id in all;
    }
    forall id | id in table && after < id && id !in all[..n]
      ensures n == limit && forall shown :: shown in all[..n] ==> shown < id
    {
      var k :| 0 <= k < |all| && all[k] == id;
      assert forall j :: 0 <= j < n ==> all[..n][j] == all[j];
      assert k >= n;
    }
  }

  method ListUntitled(table: Table, after: PaperID, limit: nat) returns (page: seq<PaperID>)
    ensures IsPage(table, after, limit, page) && page == Page(table, after, limit)
  {
    var found: seq<PaperID> := [];
    var left := table.Keys;
    while left != {}
      invariant left <= table.Keys
      invariant forall i, j :: 0 <= i < j < |found| ==> found[i] != found[j]
      invariant forall id :: id in found <==> id in table && id !in left && after < id
      decreases |left|
    {
      var id :| id in left;
      left := left - {id};
      if after < id {
        found := found + [id];
      }
    }
    var all := SortSlice(found, Smaller());
    SameElements(all, found);
    DistinctPermutation(found, all);
    SortedDistinctIsAscending(all);
    PrefixIsPage(table, after, limit, all);
    page := all[..if |all| < limit then |all| else limit];
    PageIsUnique(table, after, limit, page, Page(table, after, limit));
  }

  lemma {:induction false} DistinctCount(s: seq<PaperID>, x: PaperID)
    requires forall i, j :: 0 <= i < j < |s| ==> s[i] != s[j]
    ensures multiset(s)[x] <= 1
  {
    if s != [] {
      var n := |s| - 1;
      assert s == s[..n] + [s[n]];
      DistinctCount(s[..n], x);
      if s[n] == x {
        assert x !in s[..n];
        assert x !in multiset(s[..n]);
      }
    }
  }

  lemma DistinctPermutation(a: seq<PaperID>, b: seq<PaperID>)
    requires multiset(a) == multiset(b) && forall i, j :: 0 <= i < j < |a| ==> a[i] != a[j]
    ensures forall i, j :: 0 <= i < j < |b| ==> b[i] != b[j]
  {
    forall i, j | 0 <= i < j < |b| ensures b[i] != b[j] {
      DistinctCount(a, b[i]);
      assert b == b[..i] + [b[i]] + b[i + 1..j] + [b[j]] + b[j + 1..];
    }
  }

  // ---------------------------------------------------------------- one row

  function MarkOf(f: Flags, r: Round, id: PaperID): Mark
    requires id in r.table
  {
    if r.fetch.None? || r.table[id] !in r.fetch.value || r.fetch.value[r.table[id]].title == "" then Missing
    else if f.dryRun then Updated(r.fetch.value[r.table[id]].externalID != "")
    else match r.update(id)
      case Some(claimed) => Updated(claimed)
      case None => UpdateFailed
  }

  function Bump(c: Counts, mark: Mark): Counts {
    match mark
    case Missing => c.(processed := c.processed + 1, missing := c.missing + 1)
    case Updated(claimed) =>
      c.(processed := c.processed + 1, updated := c.updated + 1, claimed := c.claimed + if claimed then 1 else 0)
    case UpdateFailed => c.(processed := c.processed + 1)
  }

  /** The counters, read off the log. */
  function Tally(log: seq<Entry>): Counts {
    if log == [] then Counts(0, 0, 0, 0) else Bump(Tally(log[..|log| - 1]), log[|log| - 1].mark)
  }

  predicate Passed(log: seq<Entry>, id: PaperID) {
    exists i :: 0 <= i < |log| && log[i].id == id
  }

  /** Ids strictly ascend, and each row was listed in its round and treated as that round's answers say. */
  ghost predicate LogOk(f: Flags, rounds: nat -> Round, log: seq<Entry>) {
    && (forall i, j :: 0 <= i < j < |log| ==> log[i].id < log[j].id)
    && (forall i :: 0 <= i < |log| ==> log[i].id in rounds(log[i].round).table)
    && forall i :: 0 <= i < |log| ==> log[i].mark == MarkOf(f, rounds(log[i].round), log[i].id)
  }

  ghost predicate NoneFailed(log: seq<Entry>) {
    forall i :: 0 <= i < |log| ==> log[i].mark != UpdateFailed
  }

  /** An update error ends the run at the row it happened on. */
  ghost predicate StoppedAtFailure(log: seq<Entry>) {
    log != [] && log[|log| - 1].mark == UpdateFailed && NoneFailed(log[..|log| - 1])
  }

  lemma {:induction false} CountersAddUp(log: seq<Entry>)
    ensures Tally(log).processed == |log| && Tally(log).claimed <= Tally(log).updated
    ensures NoneFailed(log) ==> Tally(log).processed == Tally(log).updated + Tally(log).missing
    ensures StoppedAtFailure(log) ==> Tally(log).processed == Tally(log).updated + Tally(log).missing + 1
  {
    if log != [] {
      CountersAddUp(log[..|log| - 1]);
    }
  }

  lemma TallyOneMore(log: seq<Entry>, e: Entry)
    ensures Tally(log + [e]) == Bump(Tally(log), e.mark)
  {
    assert (log + [e])[..|log|] == log;
  }

  // ---------------------------------------------------------------- the run, round by round

  /** The rows of a page as this round's answers say. */
  function Entries(f: Flags, r: Round, n: nat, page: seq<PaperID>): seq<Entry>
    requires forall id :: id in page ==> id in r.table
  {
    seq(|page|, i requires 0 <= i < |page| => Entry(page[i], n, MarkOf(f, r, page[i])))
  }

  /** How many rows are passed: up to and with the first whose update fails. */
  function StopsAt(s: seq<Entry>, k: nat): (m: nat)
    requires k <= |s|
    ensures k <= m <= |s| && (k < |s| ==> k < m)
    ensures forall j :: k <= j < m - 1 ==> s[j].mark != UpdateFailed
    ensures m < |s| ==> s[m - 1].mark == UpdateFailed
    decreases |s| - k
  {
    if k == |s| then k else if s[k].mark == UpdateFailed then k + 1 else StopsAt(s, k + 1)
  }

  function Treated(f: Flags, r: Round, n: nat, page: seq<PaperID>): seq<Entry>
    requires forall id :: id in page ==> id in r.table
  {
    var all := Entries(f, r, n, page);
    all[..StopsAt(all, 0)]
  }

  /** At the head of a round the loop has passed these rows and keeps its cursor; or it has ended. */
  datatype Head = Running(log: seq<Entry>, after: PaperID) | Ended(log: seq<Entry>, after: PaperID, end: End)

  function BatchSize(f: Flags, passed: nat): int {
    if f.limit > 0 && f.limit - passed < f.batch then f.limit - passed else f.batch
  }

  /** One round: the limit, the listing, an interruption, a failed fetch, the rows, in the order they are looked at. */
  ghost function Next(f: Flags, r: Round, n: nat, log: seq<Entry>, after: PaperID): Head {
    var size := BatchSize(f, |log|);
    if size <= 0 then Ended(log, after, Exhausted)
    else if r.listFails then Ended(log, after, ListError)
    else
      var page := Page(r.table, after, size);
      if page == [] then Ended(log, after, Exhausted)
      else if r.interruptedWaiting || r.interruptedFetching then Ended(log, after, Interrupted)
      else
        var treated := Treated(f, r, n, page);
        var last := treated[|treated| - 1];
        if last.mark == UpdateFailed then Ended(log + treated, last.id, UpdateError)
        else Running(log + treated, last.id)
  }

  /** Round i takes the loop from its head to the next. */
  ghost predicate RoundAt(f: Flags, rounds: nat -> Round, heads: seq<Head>, i: nat)
    requires i + 1 < |heads|
  {
    heads[i].Running? && heads[i + 1] == Next(f, rounds(i), i, heads[i].log, heads[i].after)
  }

  /** The heads of a run's rounds so far. */
  ghost predicate Run(f: Flags, rounds: nat -> Round, heads: seq<Head>) {
    && heads != [] && heads[0] == Running([], 0)
    && forall i: nat :: i + 1 < |heads| ==> RoundAt(f, rounds, heads, i)
  }

  lemma RunOneMore(f: Flags, rounds: nat -> Round, heads: seq<Head>, h: Head)
    requires Run(f, rounds, heads)
    requires var last := heads[|heads| - 1];
      last.Running? && h == Next(f, rounds(|heads| - 1), |heads| - 1, last.log, last.after)
    ensures Run(f, rounds, heads + [h])
  {
    var more := heads + [h];
    forall i: nat | i + 1 < |more| ensures RoundAt(f, rounds, more, i) {
      assert i + 1 < |heads| ==> RoundAt(f, rounds, heads, i);
    }
  }

  // ---------------------------------------------------------------- what every run keeps

  /** The log after the first m rows of a page, in order. */
  ghost predicate Extends(log: seq<Entry>, more: seq<Entry>, page: seq<PaperID>, m: nat) {
    && m <= |page| && |more| == |log| + m && more[..|log|] == log
    && forall j :: 0 <= j < m ==> more[|log| + j].id == page[j]
  }

  /** Rows that were untitled in the queries of the first n rounds and are not above the cursor have been passed. */
  ghost predicate Covered(rounds: nat -> Round, log: seq<Entry>, after: PaperID, n: nat) {
    forall id :: 0 < id <= after && (forall r: nat :: r < n ==> id in rounds(r).table) ==> Passed(log, id)
  }

  /** Every row that stayed untitled through round n was passed. */
  ghost predicate Complete(rounds: nat -> Round, log: seq<Entry>, n: nat) {
    forall id :: id > 0 && (forall r: nat :: r <= n ==> id in rounds(r).table) ==> Passed(log, id)
  }

  lemma StillPassed(log: seq<Entry>, more: seq<Entry>, page: seq<PaperID>, m: nat, id: PaperID)
    requires Extends(log, more, page, m)
    ensures Passed(log, id) ==> Passed(more, id)
    ensures id in page[..m] ==> Passed(more, id)
  {
    if Passed(log, id) {
      var i :| 0 <= i < |log| && log[i].id == id;
      assert more[..|log|][i] == more[i];
    }
    if id in page[..m] {
      var j :| 0 <= j < m && page[..m][j] == id;
      assert more[|log| + j].id == id;
    }
  }

  /** A page passed to its row m leaves no row of this round's table behind. */
  lemma PageIsPassed(rounds: nat -> Round, log: seq<Entry>, more: seq<Entry>, after: PaperID, n: nat, limit: nat,
                     page: seq<PaperID>, m: nat)
    requires Covered(rounds, log, after, n) && IsPage(rounds(n).table, after, limit, page) && 0 < m <= |page|
    requires Extends(log, more, page, m)
    ensures Covered(rounds, more, page[m - 1], n + 1)
  {
    forall id | 0 < id <= page[m - 1] && (forall r: nat :: r < n + 1 ==> id in rounds(r).table)
      ensures Passed(more, id)
    {
      StillPassed(log, more, page, m, id);
      if after < id {
        RowOfThePage(rounds(n).table, after, limit, page, m, id);
      }
    }
  }

  lemma RowOfThePage(table: Table, after: PaperID, limit: nat, page: seq<PaperID>, m: nat, id: PaperID)
    requires IsPage(table, after, limit, page) && 0 < m <= |page| && id in table && after < id <= page[m - 1]
    ensures id in page[..m]
  {
    assert page[m - 1] in page;
    var j :| 0 <= j < |page| && page[j] == id;
    assert page[..m][j] == id;
  }

  lemma NothingAboveMeansComplete(rounds: nat -> Round, log: seq<Entry>, after: PaperID, n: nat, limit: nat)
    requires Covered(rounds, log, after, n) && IsPage(rounds(n).table, after, limit, []) && limit > 0
    ensures Complete(rounds, log, n)
  {
    forall id | id > 0 && (forall r: nat :: r <= n ==> id in rounds(r).table) ensures Passed(log, id) {
      assert id in rounds(n).table;
      assert id <= after;
    }
  }

  /** The log is right, and the cursor is on the last row passed. */
  ghost predicate Logged(f: Flags, rounds: nat -> Round, log: seq<Entry>, after: PaperID) {
    && LogOk(f, rounds, log) && after == (if log == [] then 0 else log[|log| - 1].id)
    && (f.limit > 0 ==> |log| <= f.limit)
  }

  /** What holds at the head of round n while the run goes on. */
  ghost predicate Going(f: Flags, rounds: nat -> Round, n: nat, log: seq<Entry>, after: PaperID) {
    Logged(f, rounds, log, after) && NoneFailed(log) && Covered(rounds, log, after, n)
  }

  /** What a run that ended in round n has passed, and why it ended there. */
  ghost predicate EndsRightly(f: Flags, rounds: nat -> Round, n: nat, log: seq<Entry>, after: PaperID, end: End) {
    && Logged(f, rounds, log, after)
    && match end
       case Exhausted => NoneFailed(log) && ((f.limit > 0 && |log| == f.limit) || Complete(rounds, log, n))
       case ListError => rounds(n).listFails && NoneFailed(log) && Covered(rounds, log, after, n)
       case Interrupted =>
         && (rounds(n).interruptedWaiting || rounds(n).interruptedFetching)
         && NoneFailed(log) && Covered(rounds, log, after, n)
       case UpdateError =>
         && StoppedAtFailure(log) && log[|log| - 1].round == n && Covered(rounds, log, after, n + 1)
  }

  lemma TreatedIsLogged(f: Flags, rounds: nat -> Round, n: nat, log: seq<Entry>, after: PaperID, page: seq<PaperID>)
    requires LogOk(f, rounds, log) && (forall i :: 0 <= i < |log| ==> log[i].id <= after)
    requires Ascending(page) && forall id :: id in page ==> id in rounds(n).table && after < id
    ensures var treated := Treated(f, rounds(n), n, page);
      && LogOk(f, rounds, log + treated) && |treated| <= |page|
      && Extends(log, log + treated, page, |treated|) && (page != [] ==> treated != [])
  {
    var treated := Treated(f, rounds(n), n, page);
    forall j | 0 <= j < |treated|
      ensures page[j] in page && treated[j] == Entry(page[j], n, MarkOf(f, rounds(n), page[j]))
    {
    }
  }

  /** A round that passes rows. */
  lemma RowsKeepRun(f: Flags, rounds: nat -> Round, n: nat, log: seq<Entry>, after: PaperID, size: nat)
    requires Going(f, rounds, n, log, after) && size > 0 && (f.limit > 0 ==> |log| + size <= f.limit)
    requires Page(rounds(n).table, after, size) != []
    ensures var treated := Treated(f, rounds(n), n, Page(rounds(n).table, after, size));
      && treated != []
      && var last := treated[|treated| - 1];
         && last.round == n && Logged(f, rounds, log + treated, last.id)
         && Covered(rounds, log + treated, last.id, n + 1)
  {
    var page := Page(rounds(n).table, after, size);
    var treated := Treated(f, rounds(n), n, page);
    TreatedIsLogged(f, rounds, n, log, after, page);
    PageIsPassed(rounds, log, log + treated, after, n, size, page, |treated|);
    assert treated[|treated| - 1].id == page[|treated| - 1];
  }

  /** Only the last row treated can be one whose update failed. */
  lemma FailureIsLast(f: Flags, r: Round, n: nat, log: seq<Entry>, page: seq<PaperID>)
    requires NoneFailed(log) && page != [] && forall id :: id in page ==> id in r.table
    ensures var treated := Treated(f, r, n, page);
      && treated != []
      && if treated[|treated| - 1].mark == UpdateFailed then StoppedAtFailure(log + treated)
         else NoneFailed(log + treated)
  {
    var treated := Treated(f, r, n, page);
    assert (log + treated)[..|log + treated| - 1] == log + treated[..|treated| - 1];
  }

  /** One round keeps what a run keeps, or ends it rightly. */
  lemma RoundKeepsRun(f: Flags, rounds: nat -> Round, n: nat, log: seq<Entry>, after: PaperID)
    requires f.batch >= 1 && Going(f, rounds, n, log, after)
    ensures var h := Next(f, rounds(n), n, log, after);
      if h.Ended? then EndsRightly(f, rounds, n, h.log, h.after, h.end) else Going(f, rounds, n + 1, h.log, h.after)
  {
    var size := BatchSize(f, |log|);
    if size > 0 && !rounds(n).listFails {
      if Page(rounds(n).table, after, size) == [] {
        NothingAboveMeansComplete(rounds, log, after, n, size);
      } else {
        RowsKeepRun(f, rounds, n, log, after, size);
        FailureIsLast(f, rounds(n), n, log, Page(rounds(n).table, after, size));
      }
    }
  }

  lemma {:induction false} HeadsKeepRun(f: Flags, rounds: nat -> Round, heads: seq<Head>, i: nat)
    requires f.batch >= 1 && Run(f, rounds, heads) && i < |heads| && heads[i].Running?
    ensures Going(f, rounds, i, heads[i].log, heads[i].after)
  {
    if i > 0 {
      assert RoundAt(f, rounds, heads, i - 1);
      HeadsKeepRun(f, rounds, heads, i - 1);
      RoundKeepsRun(f, rounds, i - 1, heads[i - 1].log, heads[i - 1].after);
    }
  }

  /** The run has ended, in the round before its last head. */
  ghost predicate EndedRun(f: Flags, rounds: nat -> Round, heads: seq<Head>) {
    Run(f, rounds, heads) && |heads| > 1 && heads[|heads| - 1].Ended?
  }

  /** However a run ends, its log is right, the cursor is on its last row, and every row up to there that was untitled
      in all queries was passed; it ends for a reason its last round gave. */
  lemma RunsEndRightly(f: Flags, rounds: nat -> Round, heads: seq<Head>)
    requires f.batch >= 1 && EndedRun(f, rounds, heads)
    ensures var h := heads[|heads| - 1]; EndsRightly(f, rounds, |heads| - 2, h.log, h.after, h.end)
  {
    var n := |heads| - 2;
    assert RoundAt(f, rounds, heads, n);
    HeadsKeepRun(f, rounds, heads, n);
    RoundKeepsRun(f, rounds, n, heads[n].log, heads[n].after);
  }

  /** Nothing stops the round: the listing works, nobody interrupts, every update succeeds.  The fetch may fail. */
  predicate Undisturbed(f: Flags, r: Round) {
    && !r.listFails && !r.interruptedWaiting && !r.interruptedFetching
    && forall id :: id in r.table ==> f.dryRun || r.update(id).Some?
  }

  /** An unlimited run that nothing stops ends exhausted, having passed every row that stayed untitled, whichever
      fetches failed. */
  lemma UndisturbedRunVisitsAll(f: Flags, rounds: nat -> Round, heads: seq<Head>)
    requires f.batch >= 1 && f.limit == 0 && EndedRun(f, rounds, heads) && Undisturbed(f, rounds(|heads| - 2))
    ensures heads[|heads| - 1].end == Exhausted
    ensures Complete(rounds, heads[|heads| - 1].log, |heads| - 2)
  {
    RunsEndRightly(f, rounds, heads);
  }

  /** The cursor ends on a row of the page, so not before its first. */
  lemma CursorPassesFirst(f: Flags, r: Round, n: nat, page: seq<PaperID>)
    requires Ascending(page) && page != [] && forall id :: id in page ==> id in r.table
    ensures var treated := Treated(f, r, n, page);
      treated != [] && page[0] <= treated[|treated| - 1].id
  {
  }

  lemma RoundPasses(f: Flags, r: Round, n: nat, log: seq<Entry>, after: PaperID, size: int)
    requires size == BatchSize(f, |log|) > 0 && !r.listFails && !r.interruptedWaiting && !r.interruptedFetching
    requires Page(r.table, after, size) != []
    ensures var page := Page(r.table, after, size);
      var treated := Treated(f, r, n, page);
      && treated != [] && page[0] in r.table && after < page[0] <= treated[|treated| - 1].id
      && Next(f, r, n, log, after)
         == if treated[|treated| - 1].mark == UpdateFailed then
              Ended(log + treated, treated[|treated| - 1].id, UpdateError)
            else Running(log + treated, treated[|treated| - 1].id)
  {
    var page := Page(r.table, after, size);
    assert page[0] in page;
    CursorPassesFirst(f, r, n, page);
  }

  /** A round after which the run goes on has passed a row above the old cursor. */
  lemma RoundMovesOn(f: Flags, r: Round, n: nat, log: seq<Entry>, after: PaperID) returns (first: PaperID)
    requires Next(f, r, n, log, after).Running?
    ensures first in r.table && after < first <= Next(f, r, n, log, after).after
  {
    var size := BatchSize(f, |log|);
    RoundPasses(f, r, n, log, after, size);
    first := Page(r.table, after, size)[0];
  }

  /** Over finitely many papers every run ends: each round passes a row that none passed before. */
  lemma {:induction false} RunEnds(f: Flags, rounds: nat -> Round, ids: set<PaperID>, heads: seq<Head>,
                                   ahead: set<PaperID>)
    returns (whole: seq<Head>)
    requires (forall r: nat :: rounds(r).table.Keys <= ids) && Run(f, rounds, heads) && heads[|heads| - 1].Running?
    requires forall id :: id in ids && id > heads[|heads| - 1].after ==> id in ahead
    ensures EndedRun(f, rounds, whole) && heads <= whole
    decreases ahead
  {
    var n, h := |heads| - 1, heads[|heads| - 1];
    var h' := Next(f, rounds(n), n, h.log, h.after);
    RunOneMore(f, rounds, heads, h');
    if h'.Ended? {
      whole := heads + [h'];
    } else {
      var first := RoundMovesOn(f, rounds(n), n, h.log, h.after);
      assert first in rounds(n).table.Keys;
      whole := RunEnds(f, rounds, ids, heads + [h'], ahead - {first});
    }
  }

  // ---------------------------------------------------------------- the loop

  /** The cursor after these rows. */
  function CursorAfter(rows: seq<Entry>, after: PaperID): PaperID {
    if rows == [] then after else rows[|rows| - 1].id
  }

  lemma FailedFetchMissesAll(f: Flags, r: Round, n: nat, page: seq<PaperID>)
    requires r.fetch.None? && forall id :: id in page ==> id in r.table
    ensures Treated(f, r, n, page) == seq(|page|, i requires 0 <= i < |page| => Entry(page[i], n, Missing))
  {
    var all := Entries(f, r, n, page);
    assert forall i :: 0 <= i < |page| ==> page[i] in page && all[i].mark == Missing;
  }

  /** A batch whose fetch failed is skipped: every row counts as missing and the cursor moves on. */
  method SkipPage(n: nat, page: seq<PaperID>, log: seq<Entry>, counts: Counts, after: PaperID)
    returns (log': seq<Entry>, counts': Counts, after': PaperID)
    requires counts == Tally(log)
    ensures log' == log + seq(|page|, i requires 0 <= i < |page| => Entry(page[i], n, Missing))
    ensures counts' == Tally(log') && after' == if page == [] then after else page[|page| - 1]
  {
    log', counts', after' := log, counts, after;
    for k := 0 to |page|
      invariant log' == log + seq(k, i requires 0 <= i < k => Entry(page[i], n, Missing))
      invariant counts' == Tally(log') && after' == if k == 0 then after else page[k - 1]
    {
      TallyOneMore(log', Entry(page[k], n, Missing));
      counts' := counts'.(processed := counts'.processed + 1, missing := counts'.missing + 1);
      log', after' := log' + [Entry(page[k], n, Missing)], page[k];
    }
  }

  /** One row of a fetched batch. */
  method UpdateRow(f: Flags, round: Round, id: PaperID, counts: Counts) returns (mark: Mark, counts': Counts)
    requires round.fetch.Some? && id in round.table
    ensures mark == MarkOf(f, round, id) && counts' == Bump(counts, mark)
  {
    var md, key := round.fetch.value, round.table[id];
    counts' := counts.(processed := counts.processed + 1);
    if key !in md || md[key].title == "" {
      counts' := counts'.(missing := counts'.missing + 1);
      return Missing, counts';
    }
    var wouldClaim := md[key].externalID != "";
    if !f.dryRun {
      var claims := round.update(id);
      if claims.None? {
        return UpdateFailed, counts';
      }
      wouldClaim := claims.value;
    }
    counts' := counts'.(updated := counts'.updated + 1);
    if wouldClaim {
      counts' := counts'.(claimed := counts'.claimed + 1);
    }
    mark := Updated(wouldClaim);
  }

  /** A fetched batch, row by row, until an update fails. */
  method UpdatePage(f: Flags, round: Round, n: nat, page: seq<PaperID>, log: seq<Entry>, counts: Counts, after: PaperID)
    returns (ok: bool, log': seq<Entry>, counts': Counts, after': PaperID)
    requires counts == Tally(log) && round.fetch.Some? && forall id :: id in page ==> id in round.table
    ensures log' == log + Treated(f, round, n, page) && counts' == Tally(log')
    ensures after' == CursorAfter(Treated(f, round, n, page), after)
    ensures var treated := Treated(f, round, n, page);
      ok <==> treated == [] || treated[|treated| - 1].mark != UpdateFailed
  {
    ok, log', counts', after' := true, log, counts, after;
    ghost var all := Entries(f, round, n, page);
    for k := 0 to |page|
      invariant ok && log' == log + all[..k] && NoneFailed(all[..k])
      invariant counts' == Tally(log') && after' == CursorAfter(all[..k], after)
    {
      ghost var before := counts';
      var mark: Mark;
      assert page[k] in page;
      mark, counts' := UpdateRow(f, round, page[k], counts');
      TallyOneMore(log', Entry(page[k], n, mark));
      assert all[..k + 1] == all[..k] + [Entry(page[k], n, mark)];
      ok, log', after' := mark != UpdateFailed, log' + [Entry(page[k], n, mark)], page[k];
      if !ok {
        StopsThere(all, k);
        return;
      }
    }
    assert all[..|page|] == all;
    StopsNowhere(all);
  }

  lemma StopsThere(all: seq<Entry>, k: nat)
    requires k < |all| && NoneFailed(all[..k]) && all[k].mark == UpdateFailed
    ensures StopsAt(all, 0) == k + 1
  {
    assert forall j :: 0 <= j < k ==> all[..k][j] == all[j];
  }

  lemma StopsNowhere(all: seq<Entry>)
    requires NoneFailed(all)
    ensures all[..StopsAt(all, 0)] == all
  {
  }

  /** A batch that was not interrupted. */
  method PassPage(f: Flags, round: Round, n: nat, page: seq<PaperID>, log: seq<Entry>, counts: Counts, after: PaperID)
    returns (ok: bool, log': seq<Entry>, counts': Counts, after': PaperID)
    requires counts == Tally(log) && page != [] && forall id :: id in page ==> id in round.table
    ensures var treated := Treated(f, round, n, page);
      && treated != [] && log' == log + treated && after' == treated[|treated| - 1].id
      && (ok <==> treated[|treated| - 1].mark != UpdateFailed)
    ensures counts' == Tally(log')
  {
    if round.fetch.None? {
      FailedFetchMissesAll(f, round, n, page);
      ok := true;
      log', counts', after' := SkipPage(n, page, log, counts, after);
    } else {
      ok, log', counts', after' := UpdatePage(f, round, n, page, log, counts, after);
    }
  }

  /** One round: an end, or the rows it passed. */
  method RunRound(f: Flags, round: Round, n: nat, log: seq<Entry>, counts: Counts, after: PaperID)
    returns (end: Option<End>, log': seq<Entry>, counts': Counts, after': PaperID)
    requires counts == Tally(log)
    ensures Next(f, round, n, log, after)
         == if end.Some? then Ended(log', after', end.value) else Running(log', after')
    ensures counts' == Tally(log')
  {
    end, log', counts', after' := None, log, counts, after;
    CountersAddUp(log);
    var batchSize: int := f.batch;
    if f.limit > 0 {
      var remaining: int := f.limit - counts.processed;
      if remaining < batchSize {
        batchSize := remaining;
      }
    }
    if batchSize <= 0 {
      end := Some(Exhausted);
      return;
    }
    if round.listFails {
      end := Some(ListError);
      return;
    }
    var page := ListUntitled(round.table, after, batchSize);
    if page == [] {
      end := Some(Exhausted);
      return;
    }
    if round.interruptedWaiting || round.interruptedFetching {
      end := Some(Interrupted);
      return;
    }
    RoundPasses(f, round, n, log, after, batchSize);
    var ok;
    ok, log', counts', after' := PassPage(f, round, n, page, log, counts, after);
    if !ok {
      end := Some(UpdateError);
    }
  }

  /** The command's loop, to its end. */
  method RunBackfill(f: Flags, rounds: nat -> Round, ghost ids: set<PaperID>)
    returns (end: End, counts: Counts, log: seq<Entry>, after: PaperID, n: nat, ghost heads: seq<Head>)
    requires f.batch >= 1 && forall r: nat :: rounds(r).table.Keys <= ids
    ensures EndedRun(f, rounds, heads) && n == |heads| - 2 && heads[n + 1] == Ended(log, after, end)
    ensures counts == Tally(log)
    ensures EndsRightly(f, rounds, n, log, after, end)
  {
    counts, log, after, n := Counts(0, 0, 0, 0), [], 0, 0;
    heads := [Running([], 0)];
    ghost var ahead := ids;
    while true
      invariant counts == Tally(log) && |heads| == n + 1 && heads[n] == Running(log, after) && Run(f, rounds, heads)
      invariant forall id :: id in ids && id > after ==> id in ahead
      decreases ahead
    {
      ghost var before, cursor := log, after;
      var ended;
      ended, log, counts, after := RunRound(f, rounds(n), n, log, counts, after);
      ghost var h := if ended.Some? then Ended(log, after, ended.value) else Running(log, after);
      RunOneMore(f, rounds, heads, h);
      heads := heads + [h];
      if ended.Some? {
        end := ended.value;
        break;
      }
      ghost var first := RoundMovesOn(f, rounds(n), n, before, cursor);
      assert first in rounds(n).table.Keys;
      ahead := ahead - {first};
      n := n + 1;
    }
    RunsEndRightly(f, rounds, heads);
  }
}
