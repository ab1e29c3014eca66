/** One round of the backfill, exactly: when it ends the run and how, which rows it passes, and what becomes of each. */
module BackfillRounds {
  import opened Backfill
  import opened Options

  /** The round's fetch brought this for the row, with a title. */
  predicate Brought(r: Round, id: PaperID, m: Metadata)
    requires id in r.table
  {
    r.fetch.Some? && r.table[id] in r.fetch.value && r.fetch.value[r.table[id]] == m && m.title != ""
  }

  predicate BroughtNothing(r: Round, id: PaperID)
    requires id in r.table
  {
    r.fetch.Some? && r.table[id] in r.fetch.value ==> r.fetch.value[r.table[id]].title == ""
  }

  /** A row is missing exactly when the fetch failed or brought nothing with a title for it.  Otherwise a dry run counts
      it as updated, and claimed when an external id came with it; a real run has it updated, and claimed as the store
      says, or failed as the store fails. */
  lemma MarkExactly(f: Flags, r: Round, id: PaperID, m: Metadata)
    requires id in r.table
    ensures MarkOf(f, r, id) == Missing <==> BroughtNothing(r, id)
    ensures Brought(r, id, m) ==> !BroughtNothing(r, id)
    ensures Brought(r, id, m) && f.dryRun ==> MarkOf(f, r, id) == Updated(m.externalID != "")
    ensures Brought(r, id, m) && !f.dryRun ==>
      && (MarkOf(f, r, id) == UpdateFailed <==> r.update(id) == None)
      && (MarkOf(f, r, id) == Updated(true) <==> r.update(id) == Some(true))
      && (MarkOf(f, r, id) == Updated(false) <==> r.update(id) == Some(false))
  {
  }

  // ---------------------------------------------------------------- counters

  datatype Counted = Processed | UpdatedRows | MissingRows | ClaimedRows

  /** Whether the row is counted there, judged by the answers of its round. */
  predicate CountsAs(kind: Counted, f: Flags, r: Round, id: PaperID)
    requires id in r.table
  {
    match kind
    case Processed => true
    case MissingRows => BroughtNothing(r, id)
    case UpdatedRows => !BroughtNothing(r, id) && (f.dryRun || r.update(id).Some?)
    case ClaimedRows =>
      && !BroughtNothing(r, id)
      && if f.dryRun then r.fetch.value[r.table[id]].externalID != "" else r.update(id) == Some(true)
  }

  ghost predicate Listed(rounds: nat -> Round, log: seq<Entry>) {
    forall i :: 0 <= i < |log| ==> log[i].id in rounds(log[i].round).table
  }

  ghost function Number(kind: Counted, f: Flags, rounds: nat -> Round, log: seq<Entry>): nat
    requires Listed(rounds, log)
  {
    if log == [] then 0
    else
      var e := log[|log| - 1];
      Number(kind, f, rounds, log[..|log| - 1]) + if CountsAs(kind, f, rounds(e.round), e.id) then 1 else 0
  }

  /** Each counter is the number of rows passed that its round's answers put there. */
  lemma {:induction false} CountersCountRows(f: Flags, rounds: nat -> Round, log: seq<Entry>)
    requires LogOk(f, rounds, log)
    ensures Tally(log).processed == Number(Processed, f, rounds, log)
    ensures Tally(log).updated == Number(UpdatedRows, f, rounds, log)
    ensures Tally(log).missing == Number(MissingRows, f, rounds, log)
    ensures Tally(log).claimed == Number(ClaimedRows, f, rounds, log)
  {
    if log != [] {
      var e := log[|log| - 1];
      CountersCountRows(f, rounds, log[..|log| - 1]);
      var r := rounds(e.round);
      if !BroughtNothing(r, e.id) {
        MarkExactly(f, r, e.id, r.fetch.value[r.table[e.id]]);
      } else {
        MarkExactly(f, r, e.id, Metadata("", ""));
      }
    }
  }

  // ---------------------------------------------------------------- one round

  /** How many rows a round may list: the batch, or what is left of a limit. */
  function Room(f: Flags, passed: nat): nat {
    if f.limit == 0 then f.batch
    else if passed >= f.limit then 0
    else if f.limit - passed <= f.batch then f.limit - passed
    else f.batch
  }

  predicate NothingAbove(table: Table, after: PaperID) {
    forall id :: id in table ==> id <= after
  }

  /** Each row is listed above the cursor, and marked as the round's answers say. */
  ghost predicate Answered(f: Flags, r: Round, n: nat, after: PaperID, rows: seq<Entry>) {
    forall i :: 0 <= i < |rows| ==>
      rows[i].id in r.table && after < rows[i].id && rows[i].round == n && rows[i].mark == MarkOf(f, r, rows[i].id)
  }

  ghost predicate InAscendingOrder(rows: seq<Entry>) {
    forall i, j :: 0 <= i < j < |rows| ==> rows[i].id < rows[j].id
  }

  /** No listed id between the cursor and this one is left out. */
  ghost predicate LeavesNoneOut(table: Table, after: PaperID, rows: seq<Entry>, last: PaperID) {
    forall id :: id in table && after < id < last ==> exists i :: 0 <= i < |rows| && rows[i].id == id
  }

  /** The rows a round passes: the smallest ids above the cursor, as many as there is room for or as there are, or fewer
      when the last one's update failed; each marked as the round's answers say. */
  ghost predicate PassedInRound(f: Flags, r: Round, n: nat, after: PaperID, room: nat, rows: seq<Entry>) {
    && 0 < |rows| <= room
    && Answered(f, r, n, after, rows) && InAscendingOrder(rows)
    && LeavesNoneOut(r.table, after, rows, rows[|rows| - 1].id)
    && (forall i :: 0 <= i < |rows| - 1 ==> rows[i].mark != UpdateFailed)
    && (rows[|rows| - 1].mark != UpdateFailed ==> |rows| == room || NothingAbove(r.table, rows[|rows| - 1].id))
  }

  lemma EmptyPageExactly(table: Table, after: PaperID, limit: nat)
    requires limit > 0
    ensures Page(table, after, limit) == [] <==> NothingAbove(table, after)
  {
    var page := Page(table, after, limit);
    if page != [] {
      assert page[0] in page;
    }
  }

  /** The rows are the page's first ones, in its order. */
  ghost predicate FirstOf(f: Flags, r: Round, n: nat, page: seq<PaperID>, rows: seq<Entry>)
    requires forall id :: id in page ==> id in r.table
  {
    && 0 < |rows| <= |page|
    && (forall i :: 0 <= i < |rows| ==> rows[i] == Entry(page[i], n, MarkOf(f, r, page[i])))
  }

  lemma TreatedRows(f: Flags, r: Round, n: nat, page: seq<PaperID>)
    requires page != [] && forall id :: id in page ==> id in r.table
    ensures var rows := Treated(f, r, n, page);
      && FirstOf(f, r, n, page, rows)
      && (forall i :: 0 <= i < |rows| - 1 ==> rows[i].mark != UpdateFailed)
      && (rows[|rows| - 1].mark != UpdateFailed ==> |rows| == |page|)
  {
    assert forall i :: 0 <= i < |page| ==> page[i] in page;
  }

  lemma FirstAreAnswered(f: Flags, r: Round, n: nat, after: PaperID, limit: nat, page: seq<PaperID>, rows: seq<Entry>)
    requires IsPage(r.table, after, limit, page) && FirstOf(f, r, n, page, rows)
    ensures Answered(f, r, n, after, rows) && InAscendingOrder(rows)
  {
    forall i | 0 <= i < |rows|
      ensures rows[i].id in r.table && after < rows[i].id
    {
      assert page[i] in page;
    }
  }

  lemma FirstLeaveNoneOut(f: Flags, r: Round, n: nat, after: PaperID, limit: nat, page: seq<PaperID>, rows: seq<Entry>)
    requires IsPage(r.table, after, limit, page) && FirstOf(f, r, n, page, rows)
    ensures LeavesNoneOut(r.table, after, rows, page[|rows| - 1])
  {
    var last := |rows| - 1;
    forall id | id in r.table && after < id < page[last] ensures exists i :: 0 <= i < |rows| && rows[i].id == id {
      BelowIsEarlier(r.table, after, limit, page, last, id);
      var k :| 0 <= k < last && page[k] == id;
      assert rows[k].id == id;
    }
  }

  /** A listed id below one of the page's is on the page before it. */
  lemma BelowIsEarlier(table: Table, after: PaperID, limit: nat, page: seq<PaperID>, m: nat, id: PaperID)
    requires IsPage(table, after, limit, page) && m < |page| && id in table && after < id < page[m]
    ensures exists k :: 0 <= k < m && page[k] == id
  {
    assert page[m] in page;
    var k :| 0 <= k < |page| && page[k] == id;
  }

  /** A page that is not full leaves nothing above its last row. */
  lemma NothingBeyond(table: Table, after: PaperID, limit: nat, page: seq<PaperID>)
    requires IsPage(table, after, limit, page) && page != [] && |page| < limit
    ensures NothingAbove(table, page[|page| - 1])
  {
    var last := page[|page| - 1];
    assert last in page;
    forall id | id in table ensures id <= last {
      if after < id {
        assert id in page;
        var k :| 0 <= k < |page| && page[k] == id;
      }
    }
  }

  lemma TreatedIsPassed(f: Flags, r: Round, n: nat, after: PaperID, room: nat, page: seq<PaperID>)
    requires IsPage(r.table, after, room, page) && page != []
    ensures PassedInRound(f, r, n, after, room, Treated(f, r, n, page))
  {
    var rows := Treated(f, r, n, page);
    TreatedRows(f, r, n, page);
    FirstAreAnswered(f, r, n, after, room, page, rows);
    FirstLeaveNoneOut(f, r, n, after, room, page, rows);
    if |rows| == |page| && |page| < room {
      NothingBeyond(r.table, after, room, page);
    }
  }

  /** The head after these rows: the cursor on the last, the run ended when its update failed. */
  function AfterRows(log: seq<Entry>, rows: seq<Entry>): Head
    requires rows != []
  {
    var last := rows[|rows| - 1];
    if last.mark == UpdateFailed then Ended(log + rows, last.id, UpdateError) else Running(log + rows, last.id)
  }

  lemma RoomIsBatchSize(f: Flags, passed: nat)
    ensures BatchSize(f, passed) <= 0 <==> Room(f, passed) == 0
    ensures Room(f, passed) > 0 ==> BatchSize(f, passed) == Room(f, passed)
  {
  }

  /** The rounds that end before any row is passed. */
  lemma RoundEnds(f: Flags, r: Round, n: nat, log: seq<Entry>, after: PaperID)
    ensures var room, next := Room(f, |log|), Next(f, r, n, log, after);
      && (room == 0 ==> next == Ended(log, after, Exhausted))
      && (room > 0 && r.listFails ==> next == Ended(log, after, ListError))
      && (room > 0 && !r.listFails && NothingAbove(r.table, after) ==> next == Ended(log, after, Exhausted))
      && (room > 0 && !r.listFails && !NothingAbove(r.table, after) && (r.interruptedWaiting || r.interruptedFetching)
          ==> next == Ended(log, after, Interrupted))
  {
    RoomIsBatchSize(f, |log|);
    if Room(f, |log|) > 0 {
      EmptyPageExactly(r.table, after, Room(f, |log|));
    }
  }

  /** The others pass rows. */
  lemma RoundPasses(f: Flags, r: Round, n: nat, log: seq<Entry>, after: PaperID) returns (rows: seq<Entry>)
    requires Room(f, |log|) > 0 && !r.listFails && !NothingAbove(r.table, after)
    requires !r.interruptedWaiting && !r.interruptedFetching
    ensures PassedInRound(f, r, n, after, Room(f, |log|), rows) && Next(f, r, n, log, after) == AfterRows(log, rows)
  {
    var room := Room(f, |log|);
    RoomIsBatchSize(f, |log|);
    EmptyPageExactly(r.table, after, room);
    var page := Page(r.table, after, room);
    TreatedIsPassed(f, r, n, after, room, page);
    rows := Treated(f, r, n, page);
  }

  /** What one round does, in the order of its checks: no room ends the run, then a failed listing, then an empty one,
      then an interruption; otherwise rows are passed, and the run ends only on a failed update. */
  lemma RoundExactly(f: Flags, r: Round, n: nat, log: seq<Entry>, after: PaperID)
    ensures var room := Room(f, |log|);
      var next := Next(f, r, n, log, after);
      if room == 0 then next == Ended(log, after, Exhausted)
      else if r.listFails then next == Ended(log, after, ListError)
      else if NothingAbove(r.table, after) then next == Ended(log, after, Exhausted)
      else if r.interruptedWaiting || r.interruptedFetching then next == Ended(log, after, Interrupted)
      else exists rows: seq<Entry> :: PassedInRound(f, r, n, after, room, rows) && next == AfterRows(log, rows)
  {
    RoundEnds(f, r, n, log, after);
    if Room(f, |log|) > 0 && !r.listFails && !NothingAbove(r.table, after)
       && !r.interruptedWaiting && !r.interruptedFetching {
      var rows := RoundPasses(f, r, n, log, after);
    }
  }
}
