/** What the acceptance boundary promises, said about the traffic alone: which final responses were
    reached from the selected URL by redirects that earlier responses declared. */
module Provenance {
  import opened NavigationScope
  import opened Options

  /** The URL selected in the main frame and every Fetch event since. */
  datatype Navigation = Navigation(frame: string, selected: string, trace: seq<Event>)

  /** Main-frame document traffic with a usable URL. */
  predicate OnMainFrame(urls: Urls, frame: string, e: Event) {
    e.hasRequest && e.isDocument && e.frameID == frame && frame != "" && urls.normalize(e.url) != ""
  }

  predicate SameRequest(urls: Urls, a: Event, b: Event) {
    a.requestID == b.requestID && urls.normalize(a.url) == urls.normalize(b.url)
  }

  predicate RequestAt(urls: Urls, n: Navigation, i: nat) {
    i < |n.trace| && OnMainFrame(urls, n.frame, n.trace[i]) && !IsResponse(n.trace[i])
  }

  /** Event r is a redirect response, with a Location, to the request at p. */
  predicate RedirectsAt(urls: Urls, n: Navigation, p: nat, r: nat) {
    && p < r < |n.trace|
    && OnMainFrame(urls, n.frame, n.trace[r]) && IsResponse(n.trace[r]) && IsRedirect(n.trace[r])
    && SameRequest(urls, n.trace[p], n.trace[r])
    && NextURL(urls, n.trace[r]).Some?
  }

  /** The last redirect response to the request at p before event `end` points to `target`. */
  predicate Declares(urls: Urls, n: Navigation, p: nat, r: nat, end: nat, target: string) {
    && r < end && RedirectsAt(urls, n, p, r) && NextURL(urls, n.trace[r]) == Some(target)
    && forall q :: r < q < end ==> !RedirectsAt(urls, n, p, q)
  }

  ghost predicate FollowsFrom(urls: Urls, n: Navigation, p: nat, r: nat, i: nat) {
    && i < |n.trace|
    && Declares(urls, n, p, r, i, urls.normalize(n.trace[i].url))
    && n.trace[p].requestID == n.trace[i].redirectedFrom
  }

  /** The request at i is the selected URL after exactly `hops` declared redirects. */
  ghost predicate Reaches(urls: Urls, n: Navigation, i: nat, hops: nat)
    decreases hops
  {
    && RequestAt(urls, n, i)
    && if hops == 0 then
         n.trace[i].redirectedFrom == "" && urls.normalize(n.trace[i].url) == n.selected
       else
         && n.trace[i].redirectedFrom != ""
         && exists p: nat, r: nat :: Reaches(urls, n, p, hops - 1) && FollowsFrom(urls, n, p, r, i)
  }

  /** Event c is a final response without a network error to a request reached in at most 8 redirects. */
  ghost predicate FinalAt(urls: Urls, n: Navigation, c: nat, p: nat, hops: nat) {
    && p < c < |n.trace| && hops <= 8 && Reaches(urls, n, p, hops)
    && OnMainFrame(urls, n.frame, n.trace[c]) && SameRequest(urls, n.trace[p], n.trace[c])
    && IsResponse(n.trace[c]) && !IsRedirect(n.trace[c]) && n.trace[c].errorReason == ""
  }

  // ---------------------------------------------------------------- what the scope's table means

  /** The request table's entry for `id` records a reached request and what it last redirected to. */
  ghost predicate BackedBy(urls: Urls, n: Navigation, id: string, req: ScopedRequest, p: nat) {
    && req.redirects <= MAX_REDIRECTS && Reaches(urls, n, p, req.redirects)
    && n.trace[p].requestID == id && urls.normalize(n.trace[p].url) == req.url
    && (req.nextURL != "" ==> exists r: nat :: Declares(urls, n, p, r, |n.trace|, req.nextURL))
  }

  ghost predicate Backed(urls: Urls, n: Navigation, id: string, req: ScopedRequest) {
    exists p: nat :: BackedBy(urls, n, id, req, p)
  }

  /** Every entry of the table is backed by the traffic of the selected navigation. */
  ghost predicate Faithful(urls: Urls, s: Scope, n: Navigation) {
    && n.frame == s.frame && n.selected == s.selected
    && forall id :: id in s.requests ==> Backed(urls, n, id, s.requests[id])
  }

  function Then(n: Navigation, e: Event): Navigation {
    n.(trace := n.trace + [e])
  }

  /** The final response at c is that request's, with this URL and status. */
  predicate Answers(n: Navigation, c: nat, request: string, url: string, status: int) {
    c < |n.trace| && n.trace[c].requestID == request && n.trace[c].url == url && n.trace[c].status == status
  }

  /** The navigation saw a final response to this very request, with this URL and status. */
  ghost predicate Justified(urls: Urls, n: Navigation, request: string, url: string, status: int) {
    exists c: nat, p: nat, hops: nat :: FinalAt(urls, n, c, p, hops) && Answers(n, c, request, url, status)
  }

  // ---------------------------------------------------------------- later events do not matter

  lemma DeclaresKept(urls: Urls, n: Navigation, e: Event, p: nat, r: nat, end: nat, target: string)
    requires Declares(urls, n, p, r, end, target) && end <= |n.trace|
    ensures Declares(urls, Then(n, e), p, r, end, target)
  {
    forall q | r < q < end ensures !RedirectsAt(urls, Then(n, e), p, q) {
      assert !RedirectsAt(urls, n, p, q);
    }
  }

  lemma {:induction false} ReachesKept(urls: Urls, n: Navigation, e: Event, i: nat, hops: nat)
    requires Reaches(urls, n, i, hops)
    ensures Reaches(urls, Then(n, e), i, hops)
    decreases hops
  {
    if hops > 0 {
      var p: nat, r: nat :| Reaches(urls, n, p, hops - 1) && FollowsFrom(urls, n, p, r, i);
      ReachesKept(urls, n, e, p, hops - 1);
      DeclaresKept(urls, n, e, p, r, i, urls.normalize(n.trace[i].url));
      assert FollowsFrom(urls, Then(n, e), p, r, i);
    }
  }

  lemma JustifiedKept(urls: Urls, n: Navigation, e: Event, request: string, url: string, status: int)
    requires Justified(urls, n, request, url, status)
    ensures Justified(urls, Then(n, e), request, url, status)
  {
    var c: nat, p: nat, hops: nat :|  FinalAt(urls, n, c, p, hops) && Answers(n, c, request, url, status);
    ReachesKept(urls, n, e, p, hops);
    assert FinalAt(urls, Then(n, e), c, p, hops) && Answers(Then(n, e), c, request, url, status);
  }

  // ---------------------------------------------------------------- one event keeps the table faithful

  /** An entry the event does not rewrite stays backed: the event is no redirect of that request. */
  lemma UntouchedEntryStaysBacked(urls: Urls, n: Navigation, e: Event, id: string, req: ScopedRequest)
    requires Backed(urls, n, id, req)
    requires !(OnMainFrame(urls, n.frame, e) && IsResponse(e) && IsRedirect(e) && e.requestID == id
               && urls.normalize(e.url) == req.url && NextURL(urls, e).Some?)
    ensures Backed(urls, Then(n, e), id, req)
  {
    var p: nat :| BackedBy(urls, n, id, req, p);
    ReachesKept(urls, n, e, p, req.redirects);
    if req.nextURL != "" {
      var r: nat :| Declares(urls, n, p, r, |n.trace|, req.nextURL);
      DeclarationStands(urls, n, e, p, r, req.nextURL);
    }
    assert BackedBy(urls, Then(n, e), id, req, p);
  }

  /** One more event that is no redirect of the request leaves its last declaration the last. */
  lemma DeclarationStands(urls: Urls, n: Navigation, e: Event, p: nat, r: nat, target: string)
    requires Declares(urls, n, p, r, |n.trace|, target)
    requires !(OnMainFrame(urls, n.frame, e) && IsResponse(e) && IsRedirect(e) && e.requestID == n.trace[p].requestID
               && urls.normalize(e.url) == urls.normalize(n.trace[p].url) && NextURL(urls, e).Some?)
    ensures Declares(urls, Then(n, e), p, r, |Then(n, e).trace|, target)
  {
    DeclaresKept(urls, n, e, p, r, |n.trace|, target);
    assert !RedirectsAt(urls, Then(n, e), p, |n.trace|);
  }

  lemma NewRedirectDeclares(urls: Urls, n: Navigation, e: Event, p: nat)
    requires p < |n.trace| && SameRequest(urls, n.trace[p], e)
    requires OnMainFrame(urls, n.frame, e) && IsResponse(e) && IsRedirect(e) && NextURL(urls, e).Some?
    ensures Declares(urls, Then(n, e), p, |n.trace|, |n.trace| + 1, NextURL(urls, e).value)
  {
    assert RedirectsAt(urls, Then(n, e), p, |n.trace|);
  }

  lemma DeclarationBacks(urls: Urls, n: Navigation, id: string, req: ScopedRequest, p: nat, r: nat)
    requires req.redirects <= MAX_REDIRECTS && Reaches(urls, n, p, req.redirects)
    requires n.trace[p].requestID == id && urls.normalize(n.trace[p].url) == req.url
    requires Declares(urls, n, p, r, |n.trace|, req.nextURL)
    ensures Backed(urls, n, id, req)
  {
    assert BackedBy(urls, n, id, req, p);
  }

  /** A redirect response of a known request becomes that request's declaration. */
  lemma RedirectedEntryIsBacked(urls: Urls, n: Navigation, e: Event, req: ScopedRequest)
    requires Backed(urls, n, e.requestID, req) && urls.normalize(e.url) == req.url
    requires OnMainFrame(urls, n.frame, e) && IsResponse(e) && IsRedirect(e) && NextURL(urls, e).Some?
    ensures Backed(urls, Then(n, e), e.requestID, req.(nextURL := NextURL(urls, e).value))
  {
    var p: nat :| BackedBy(urls, n, e.requestID, req, p);
    ReachesKept(urls, n, e, p, req.redirects);
    NewRedirectDeclares(urls, n, e, p);
    DeclarationBacks(urls, Then(n, e), e.requestID, req.(nextURL := NextURL(urls, e).value), p, |n.trace|);
  }

  /** A request with the declared target of a backed entry is reached one redirect later. */
  lemma RedirectTargetIsReached(urls: Urls, n: Navigation, e: Event, parent: ScopedRequest)
    requires Backed(urls, n, e.redirectedFrom, parent) && e.redirectedFrom != ""
    requires OnMainFrame(urls, n.frame, e) && !IsResponse(e) && urls.normalize(e.url) == parent.nextURL
    ensures Reaches(urls, Then(n, e), |n.trace|, parent.redirects + 1)
  {
    var p: nat :| BackedBy(urls, n, e.redirectedFrom, parent, p);
    ReachesKept(urls, n, e, p, parent.redirects);
    var r: nat :| Declares(urls, n, p, r, |n.trace|, parent.nextURL);
    DeclaresKept(urls, n, e, p, r, |n.trace|, parent.nextURL);
    assert FollowsFrom(urls, Then(n, e), p, r, |n.trace|);
  }

  /** An admitted request is reached: directly, or one redirect after its parent. */
  lemma AdmittedEntryIsBacked(urls: Urls, s: Scope, n: Navigation, e: Event)
    requires Faithful(urls, s, n) && InScope(urls, s, e) && !IsResponse(e) && Admits(urls, s, e)
    ensures Backed(urls, Then(n, e), e.requestID, Observed(urls, s, e).requests[e.requestID])
  {
    AdmittedRecord(urls, s, e);
    AdmittedIsReached(urls, s, n, e);
    assert BackedBy(urls, Then(n, e), e.requestID, Observed(urls, s, e).requests[e.requestID], |n.trace|);
  }

  /** How many redirects led to a request the scope admits. */
  function Depth(s: Scope, e: Event): nat {
    if e.redirectedFrom in s.requests && e.redirectedFrom != "" then s.requests[e.redirectedFrom].redirects + 1 else 0
  }

  lemma AdmittedRecord(urls: Urls, s: Scope, e: Event)
    requires InScope(urls, s, e) && !IsResponse(e) && Admits(urls, s, e)
    ensures Depth(s, e) <= MAX_REDIRECTS
    ensures e.requestID in Observed(urls, s, e).requests
    ensures Observed(urls, s, e).requests[e.requestID] == ScopedRequest(urls.normalize(e.url), "", Depth(s, e))
  {
  }

  lemma AdmittedIsReached(urls: Urls, s: Scope, n: Navigation, e: Event)
    requires Faithful(urls, s, n) && InScope(urls, s, e) && !IsResponse(e) && Admits(urls, s, e)
    ensures Reaches(urls, Then(n, e), |n.trace|, Depth(s, e))
  {
    if e.redirectedFrom != "" {
      RedirectTargetIsReached(urls, n, e, s.requests[e.redirectedFrom]);
    } else {
      SelectedIsReached(urls, n, e);
    }
  }

  lemma SelectedIsReached(urls: Urls, n: Navigation, e: Event)
    requires OnMainFrame(urls, n.frame, e) && !IsResponse(e) && e.redirectedFrom == ""
    requires urls.normalize(e.url) == n.selected
    ensures Reaches(urls, Then(n, e), |n.trace|, 0)
  {
  }

  /** The invariant: whatever event arrives, the table stays backed by the traffic. */
  lemma ObserveKeepsFaithful(urls: Urls, s: Scope, n: Navigation, e: Event)
    requires Faithful(urls, s, n)
    ensures Faithful(urls, Observed(urls, s, e), Then(n, e))
  {
    var s' := Observed(urls, s, e);
    forall id | id in s'.requests ensures Backed(urls, Then(n, e), id, s'.requests[id]) {
      if id == e.requestID && InScope(urls, s, e) && !IsResponse(e) && Admits(urls, s, e) {
        AdmittedEntryIsBacked(urls, s, n, e);
      } else if id == e.requestID && InScope(urls, s, e) && IsResponse(e) && Knows(urls, s, e)
                && IsRedirect(e) && NextURL(urls, e).Some? {
        RedirectedEntryIsBacked(urls, n, e, s.requests[id]);
      } else {
        var p: nat :| BackedBy(urls, n, id, s.requests[id], p);
        ReachedMeansSelected(urls, n, p, s.requests[id].redirects);
        UntouchedEntryStaysBacked(urls, n, e, id, s.requests[id]);
      }
    }
  }

  /** Nothing is reached before the first selection. */
  lemma {:induction false} ReachedMeansSelected(urls: Urls, n: Navigation, i: nat, hops: nat)
    requires Reaches(urls, n, i, hops)
    ensures n.selected != ""
    decreases hops
  {
    if hops > 0 {
      var p: nat, r: nat :| Reaches(urls, n, p, hops - 1) && FollowsFrom(urls, n, p, r, i);
      ReachedMeansSelected(urls, n, p, hops - 1);
    }
  }

  /** A permit is only granted for a final response reached from the selected URL. */
  lemma GrantedIsJustified(urls: Urls, s: Scope, n: Navigation, e: Event)
    requires Faithful(urls, s, n) && Captures(urls, s, e)
    ensures Justified(urls, Then(n, e), Granted(urls, s, e).value.request, e.url, e.status)
  {
    var req := s.requests[e.requestID];
    var p: nat :| BackedBy(urls, n, e.requestID, req, p);
    ReachesKept(urls, n, e, p, req.redirects);
    assert FinalAt(urls, Then(n, e), |n.trace|, p, req.redirects)
      && Answers(Then(n, e), |n.trace|, e.requestID, e.url, e.status);
  }

  // ---------------------------------------------------------------- and nothing reached is missed

  /** The browser gives every request of the main frame an id of its own. */
  ghost predicate UniqueIDs(urls: Urls, n: Navigation) {
    forall i: nat, j: nat :: i < j && RequestAt(urls, n, i) && RequestAt(urls, n, j)
      ==> n.trace[i].requestID != n.trace[j].requestID
  }

  /** The entry for the request at p says how it was reached and where it was last sent. */
  ghost predicate Records(urls: Urls, s: Scope, n: Navigation, p: nat, hops: nat)
    requires p < |n.trace|
  {
    var id := n.trace[p].requestID;
    && id in s.requests
    && s.requests[id].url == urls.normalize(n.trace[p].url) && s.requests[id].redirects == hops
    && forall r: nat, target: string :: Declares(urls, n, p, r, |n.trace|, target) ==> s.requests[id].nextURL == target
  }

  ghost predicate RecordsAll(urls: Urls, s: Scope, n: Navigation) {
    forall p: nat, hops: nat :: hops <= MAX_REDIRECTS && Reaches(urls, n, p, hops) ==> Records(urls, s, n, p, hops)
  }

  lemma DeclaredBefore(urls: Urls, n: Navigation, e: Event, p: nat, r: nat, end: nat, target: string)
    requires Declares(urls, Then(n, e), p, r, end, target) && p < |n.trace| && r < |n.trace|
    ensures Declares(urls, n, p, r, if end < |n.trace| then end else |n.trace|, target)
  {
    forall q: nat | r < q < end && q < |n.trace| ensures !RedirectsAt(urls, n, p, q) {
      assert !RedirectsAt(urls, Then(n, e), p, q);
    }
  }

  lemma {:induction false} ReachedBefore(urls: Urls, n: Navigation, e: Event, i: nat, hops: nat)
    requires Reaches(urls, Then(n, e), i, hops) && i < |n.trace|
    ensures Reaches(urls, n, i, hops)
    decreases hops
  {
    if hops > 0 {
      var m := Then(n, e);
      var p: nat, r: nat :| Reaches(urls, m, p, hops - 1) && FollowsFrom(urls, m, p, r, i);
      ReachedBefore(urls, n, e, p, hops - 1);
      DeclaredBefore(urls, n, e, p, r, i, urls.normalize(n.trace[i].url));
      assert FollowsFrom(urls, n, p, r, i);
    }
  }

  /** A recorded request stays recorded, and a new declaration replaces the old one. */
  lemma OldRequestStaysRecorded(urls: Urls, s: Scope, n: Navigation, e: Event, p: nat, hops: nat)
    requires s.frame == n.frame && s.selected != ""
    requires RequestAt(urls, n, p) && Records(urls, s, n, p, hops) && UniqueIDs(urls, Then(n, e))
    ensures Records(urls, Observed(urls, s, e), Then(n, e), p, hops)
  {
    var m, s', id := Then(n, e), Observed(urls, s, e), n.trace[p].requestID;
    assert RequestAt(urls, m, p);
    assert RequestAt(urls, m, |n.trace|) ==> e.requestID != id;
    forall r: nat, target: string | Declares(urls, m, p, r, |m.trace|, target)
      ensures s'.requests[id].nextURL == target
    {
      if r < |n.trace| {
        DeclaredBefore(urls, n, e, p, r, |m.trace|, target);
        assert !RedirectsAt(urls, m, p, |n.trace|);
      }
    }
  }

  /** A request that is reached is admitted, at its own depth. */
  lemma ReachedIsAdmitted(urls: Urls, s: Scope, n: Navigation, e: Event, hops: nat)
    requires s.selected == n.selected && RecordsAll(urls, s, n)
    requires hops <= MAX_REDIRECTS && Reaches(urls, Then(n, e), |n.trace|, hops)
    ensures Admits(urls, s, e)
    ensures if hops == 0 then e.redirectedFrom == ""
            else e.redirectedFrom != "" && s.requests[e.redirectedFrom].redirects == hops - 1
  {
    if hops > 0 {
      var p, r := ReachedThrough(urls, n, e, hops);
      assert Records(urls, s, n, p, hops - 1);
    }
  }

  /** The redirect by which the newest request is reached. */
  lemma ReachedThrough(urls: Urls, n: Navigation, e: Event, hops: nat) returns (p: nat, r: nat)
    requires hops > 0 && Reaches(urls, Then(n, e), |n.trace|, hops)
    ensures RequestAt(urls, Then(n, e), |n.trace|) && e.redirectedFrom != ""
    ensures Reaches(urls, n, p, hops - 1) && Declares(urls, n, p, r, |n.trace|, urls.normalize(e.url))
    ensures n.trace[p].requestID == e.redirectedFrom
  {
    p, r :| Reaches(urls, Then(n, e), p, hops - 1) && FollowsFrom(urls, Then(n, e), p, r, |n.trace|);
    ReachedBefore(urls, n, e, p, hops - 1);
    DeclaredBefore(urls, n, e, p, r, |n.trace|, urls.normalize(e.url));
  }

  lemma NewRequestIsRecorded(urls: Urls, s: Scope, n: Navigation, e: Event, hops: nat)
    requires s.frame == n.frame && s.selected == n.selected && s.selected != "" && RecordsAll(urls, s, n)
    requires hops <= MAX_REDIRECTS && Reaches(urls, Then(n, e), |n.trace|, hops)
    ensures Records(urls, Observed(urls, s, e), Then(n, e), |n.trace|, hops)
  {
    ReachedIsAdmitted(urls, s, n, e, hops);
  }

  lemma ObserveRecordsAll(urls: Urls, s: Scope, n: Navigation, e: Event)
    requires s.frame == n.frame && s.selected == n.selected && s.selected != ""
    requires RecordsAll(urls, s, n) && UniqueIDs(urls, Then(n, e))
    ensures RecordsAll(urls, Observed(urls, s, e), Then(n, e))
  {
    forall p: nat, hops: nat | hops <= MAX_REDIRECTS && Reaches(urls, Then(n, e), p, hops)
      ensures Records(urls, Observed(urls, s, e), Then(n, e), p, hops)
    {
      if p < |n.trace| {
        ReachedBefore(urls, n, e, p, hops);
        OldRequestStaysRecorded(urls, s, n, e, p, hops);
      } else {
        NewRequestIsRecorded(urls, s, n, e, hops);
      }
    }
  }

  /** The scope after a selection and the events that followed. */
  function After(urls: Urls, selection: Scope, trace: seq<Event>): (s: Scope)
    ensures s.frame == selection.frame && s.selected == selection.selected && s.generation == selection.generation
  {
    if trace == [] then selection
    else Observed(urls, After(urls, selection, trace[..|trace| - 1]), trace[|trace| - 1])
  }

  lemma {:induction false} AfterIsExact(urls: Urls, selection: Scope, trace: seq<Event>)
    requires selection.requests == map[] && selection.selected != ""
    requires UniqueIDs(urls, Navigation(selection.frame, selection.selected, trace))
    ensures Faithful(urls, After(urls, selection, trace), Navigation(selection.frame, selection.selected, trace))
    ensures RecordsAll(urls, After(urls, selection, trace), Navigation(selection.frame, selection.selected, trace))
  {
    if trace != [] {
      var before, e := trace[..|trace| - 1], trace[|trace| - 1];
      var n := Navigation(selection.frame, selection.selected, before);
      assert Then(n, e) == Navigation(selection.frame, selection.selected, trace);
      assert UniqueIDs(urls, n) by {
        forall i: nat, j: nat | i < j && RequestAt(urls, n, i) && RequestAt(urls, n, j)
          ensures before[i].requestID != before[j].requestID
        {
          assert RequestAt(urls, Then(n, e), i) && RequestAt(urls, Then(n, e), j);
        }
      }
      AfterIsExact(urls, selection, before);
      ObserveKeepsFaithful(urls, After(urls, selection, before), n, e);
      ObserveRecordsAll(urls, After(urls, selection, before), n, e);
    }
  }

  /** The boundary is exact: with distinct request ids, a body may be read for precisely the final
      responses that at most 8 declared redirects join to the selected URL. */
  lemma CapturesExactlyTheReachedResponses(urls: Urls, selection: Scope, trace: seq<Event>, e: Event)
    requires selection.requests == map[] && selection.selected != ""
    requires UniqueIDs(urls, Navigation(selection.frame, selection.selected, trace))
    ensures var n := Navigation(selection.frame, selection.selected, trace);
      Captures(urls, After(urls, selection, trace), e)
      <==> exists p: nat, hops: nat :: FinalAt(urls, Then(n, e), |trace|, p, hops)
  {
    var n := Navigation(selection.frame, selection.selected, trace);
    var s := After(urls, selection, trace);
    AfterIsExact(urls, selection, trace);
    if Captures(urls, s, e) {
      var p: nat :| BackedBy(urls, n, e.requestID, s.requests[e.requestID], p);
      ReachesKept(urls, n, e, p, s.requests[e.requestID].redirects);
      assert FinalAt(urls, Then(n, e), |trace|, p, s.requests[e.requestID].redirects);
    }
    forall p: nat, hops: nat | FinalAt(urls, Then(n, e), |trace|, p, hops) ensures Captures(urls, s, e) {
      ReachedBefore(urls, n, e, p, hops);
      assert Records(urls, s, n, p, hops);
    }
  }
}
