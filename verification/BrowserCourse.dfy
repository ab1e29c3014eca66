/** Undisturbed courses of the browser lane from any state: a page is read and mined, its first usable candidate is
    selected, an answered selection is read and accepted; and what each end of the loop is answered with. */
module BrowserCourse {
  import opened NavigationScope
  import opened Provenance
  import opened BrowserRun
  import opened Options
  import Text

  // ---------------------------------------------------------------- candidates

  /** A candidate the loop may select: a usable URL, not selected before, while fewer than eight have been. */
  predicate Usable(cfg: Config, visited: set<string>, raw: string) {
    var u := cfg.urls.normalize(raw);
    u != "" && cfg.urls.normalize(u) != "" && cfg.frame != "" && u !in visited && |visited| < 8
  }

  /** The selection of a candidate: the next generation, with nothing observed yet. */
  function SelectedNext(cfg: Config, st: State, raw: string): State {
    var u := cfg.urls.normalize(raw);
    st.(scope := Scope(cfg.frame, cfg.urls.normalize(u), st.scope.generation + 1, map[]),
        visited := st.visited + {u}, trace := [], loop := Waiting)
  }

  function Tries(cfg: Config, st: State, n: nat): State {
    if n == 0 then st else Do(cfg, Tries(cfg, st, n - 1), TryCandidate)
  }

  lemma {:induction false} UnusableAreSkipped(cfg: Config, st: State, candidates: seq<string>, from: Option<Body>,
                                              k: nat)
    requires st.loop == Choosing(candidates, from) && k <= |candidates|
    requires forall i :: 0 <= i < k ==> !Usable(cfg, st.visited, candidates[i])
    ensures Tries(cfg, st, k) == st.(loop := Choosing(candidates[k..], from))
  {
    if k > 0 {
      UnusableAreSkipped(cfg, st, candidates, from, k - 1);
      assert candidates[k - 1..][0] == candidates[k - 1] && candidates[k - 1..][1..] == candidates[k..];
    } else {
      assert candidates[0..] == candidates;
    }
  }

  /** A page of the current selection is taken, rendered and mined: its first usable candidate is the next selection. */
  lemma FirstUsableCandidateIsSelected(cfg: Config, st: State, candidates: seq<string>, k: nat)
    requires st.loop == Waiting && st.htmls != [] && st.htmls[0].navigation == st.scope.generation
    requires k < |candidates| && Usable(cfg, st.visited, candidates[k])
    requires forall i :: 0 <= i < k ==> !Usable(cfg, st.visited, candidates[i])
    ensures Tries(cfg, Do(cfg, Do(cfg, st, TakeHTML), Rendered(candidates)), k + 1)
            == SelectedNext(cfg, st, candidates[k]).(htmls := st.htmls[1..])
  {
    var s1 := Do(cfg, st, TakeHTML);
    assert s1 == st.(htmls := st.htmls[1..], loop := Rendering(st.htmls[0]));
    var s2 := Do(cfg, s1, Rendered(candidates));
    assert s2 == st.(htmls := st.htmls[1..], loop := Choosing(candidates, Some(st.htmls[0])));
    UnusableAreSkipped(cfg, s2, candidates, Some(st.htmls[0]), k);
    assert candidates[k..][0] == candidates[k];
  }

  /** A page without a usable candidate is passed over, and the loop goes on waiting. */
  lemma NoUsableCandidate(cfg: Config, st: State, candidates: seq<string>)
    requires st.loop == Waiting && st.htmls != [] && st.htmls[0].navigation == st.scope.generation
    requires forall i :: 0 <= i < |candidates| ==> !Usable(cfg, st.visited, candidates[i])
    ensures Tries(cfg, Do(cfg, Do(cfg, st, TakeHTML), Rendered(candidates)), |candidates| + 1)
            == st.(htmls := st.htmls[1..])
  {
    var s1 := Do(cfg, st, TakeHTML);
    assert s1 == st.(htmls := st.htmls[1..], loop := Rendering(st.htmls[0]));
    var s2 := Do(cfg, s1, Rendered(candidates));
    UnusableAreSkipped(cfg, s2, candidates, Some(st.htmls[0]), |candidates|);
    assert candidates[|candidates|..] == [];
  }

  /** A body of an earlier selection is dropped, whatever it is, and the loop goes on waiting. */
  lemma StaleBodiesAreDropped(cfg: Config, st: State)
    requires st.loop == Waiting
    ensures st.pdfs != [] && st.pdfs[0].navigation != st.scope.generation ==>
      Do(cfg, st, TakePDF) == st.(pdfs := st.pdfs[1..])
    ensures st.htmls != [] && st.htmls[0].navigation != st.scope.generation ==>
      Do(cfg, st, TakeHTML) == st.(htmls := st.htmls[1..])
  {
  }

  /** When the page's render wait is cut off, the loop waits on. */
  lemma CancelledPageIsPassedOver(cfg: Config, st: State)
    requires st.loop.Rendering?
    ensures Do(cfg, st, RenderCancelled) == st.(loop := Waiting)
  {
  }

  /** The steps of the loop itself, each of which acts in one place only. */
  predicate InItsPlace(step: Step, loop: Loop) {
    match step
    case TakePDF => loop == Waiting
    case TakeHTML => loop == Waiting
    case Timeout => loop == Waiting
    case Rendered(_) => loop.Rendering?
    case RenderCancelled => loop.Rendering?
    case TryCandidate => loop.Choosing?
    case _ => true
  }

  /** Out of its place a step of the loop does nothing, and nothing at all happens once navigate has returned. */
  lemma OutOfPlaceDoesNothing(cfg: Config, st: State, step: Step)
    requires !InItsPlace(step, st.loop) || st.loop.Accepted? || st.loop.TimedOut?
    ensures Do(cfg, st, step) == st
  {
  }

  // ---------------------------------------------------------------- reading a body

  function BodyOf(t: Task, bytes: Bytes): Body {
    Body(t.permit.request, t.url, t.permit.generation, bytes, t.status)
  }

  function Staged(st: State, i: nat, stage: Stage): State
    requires i < |st.tasks|
  {
    st.(tasks := st.tasks[i := st.tasks[i].(stage := stage)])
  }

  /** The goroutine checks its permit, reads the bytes and checks again. */
  function Read(cfg: Config, st: State, i: nat, bytes: Bytes): State {
    Do(cfg, Do(cfg, Do(cfg, st, CheckPermit(i)), ReadBody(i, bytes)), CheckAgain(i))
  }

  lemma CurrentBodyIsRead(cfg: Config, st: State, i: nat, bytes: Bytes)
    requires st.loop == Waiting && i < |st.tasks| && st.tasks[i].stage == Spawned
    requires IsCurrent(st.scope, st.tasks[i].permit) && bytes != []
    ensures Read(cfg, st, i, bytes) == Staged(st, i, Checked(BodyOf(st.tasks[i], bytes)))
  {
    var s1 := Do(cfg, st, CheckPermit(i));
    assert s1 == Staged(st, i, Reading);
    var s2 := Do(cfg, s1, ReadBody(i, bytes));
    assert s2 == Staged(st, i, Fetched(bytes));
  }

  /** An empty body ends its goroutine. */
  lemma EmptyBodyEnds(cfg: Config, st: State, i: nat)
    requires st.loop == Waiting && i < |st.tasks| && st.tasks[i].stage == Reading
    ensures Do(cfg, st, ReadBody(i, [])) == Staged(st, i, Gone)
  {
  }

  /** A goroutine whose permit is no longer current, before or after reading, delivers nothing. */
  lemma StaleTasksEnd(cfg: Config, st: State, i: nat, step: Step)
    requires st.loop == Waiting && i < |st.tasks| && !IsCurrent(st.scope, st.tasks[i].permit)
    requires (st.tasks[i].stage == Spawned && step == CheckPermit(i))
      || (st.tasks[i].stage.Fetched? && step == CheckAgain(i))
    ensures Do(cfg, st, step) == Staged(st, i, Gone)
  {
  }

  /** Bytes that begin like a PDF go to the one queue, other bytes to the other; a queue holds eight and drops what does
      not fit. */
  lemma BodyIsQueued(cfg: Config, st: State, i: nat, b: Body)
    requires st.loop == Waiting && i < |st.tasks| && st.tasks[i].stage == Checked(b)
    ensures IsPDF(b.bytes) ==>
              Do(cfg, st, Deliver(i))
              == Staged(st, i, Gone).(pdfs := if |st.pdfs| < 8 then st.pdfs + [b] else st.pdfs)
    ensures !IsPDF(b.bytes) ==>
              Do(cfg, Do(cfg, st, RecordHTML(i)), Deliver(i))
              == Staged(st, i, Gone).(htmls := if |st.htmls| < 8 then st.htmls + [b] else st.htmls, lastHTML := Some(b))
  {
    if !IsPDF(b.bytes) {
      var s1 := Do(cfg, st, RecordHTML(i));
      assert s1 == Staged(st, i, Recorded(b)).(lastHTML := Some(b));
      assert s1.tasks[i := s1.tasks[i].(stage := Gone)] == st.tasks[i := st.tasks[i].(stage := Gone)];
    }
  }

  /** A current permit's PDF is read, queued and, nothing else waiting, accepted. */
  lemma CurrentPDFIsAccepted(cfg: Config, st: State, i: nat, bytes: Bytes)
    requires st.loop == Waiting && i < |st.tasks| && st.tasks[i].stage == Spawned
    requires IsCurrent(st.scope, st.tasks[i].permit) && IsPDF(bytes) && st.pdfs == []
    ensures Do(cfg, Do(cfg, Read(cfg, st, i, bytes), Deliver(i)), TakePDF).loop == Accepted(BodyOf(st.tasks[i], bytes))
  {
    CurrentBodyIsRead(cfg, st, i, bytes);
    BodyIsQueued(cfg, Read(cfg, st, i, bytes), i, BodyOf(st.tasks[i], bytes));
  }

  /** A current permit's page is read, remembered and queued. */
  lemma CurrentPageIsQueued(cfg: Config, st: State, i: nat, bytes: Bytes)
    requires st.loop == Waiting && i < |st.tasks| && st.tasks[i].stage == Spawned
    requires IsCurrent(st.scope, st.tasks[i].permit) && bytes != [] && !IsPDF(bytes) && st.htmls == []
    ensures var b := BodyOf(st.tasks[i], bytes);
      Do(cfg, Do(cfg, Read(cfg, st, i, bytes), RecordHTML(i)), Deliver(i))
      == Staged(st, i, Gone).(htmls := [b], lastHTML := Some(b))
  {
    CurrentBodyIsRead(cfg, st, i, bytes);
    var s1 := Read(cfg, st, i, bytes);
    BodyIsQueued(cfg, s1, i, BodyOf(st.tasks[i], bytes));
    assert s1.tasks[i := s1.tasks[i].(stage := Gone)] == st.tasks[i := st.tasks[i].(stage := Gone)];
  }

  // ---------------------------------------------------------------- a selection that is answered

  /** A freshly selected URL is requested in the main frame and answered: a goroutine gets a current permit. */
  lemma AnsweredSelection(cfg: Config, st: State, request: Event, response: Event)
    requires st.loop == Waiting && st.scope.requests == map[] && st.scope.frame == cfg.frame && st.scope.selected != ""
    requires DirectAnswer(cfg, st.scope.selected, request, response)
    ensures var st' := Do(cfg, Do(cfg, st, Paused(request)), Paused(response));
      var t := Task(Permit(st.scope.generation, request.requestID, st.scope.selected), response.url, 200, Spawned);
      && st' == st.(scope := st.scope.(requests := map[request.requestID := ScopedRequest(st.scope.selected, "", 0)]),
                    tasks := st.tasks + [t], trace := st.trace + [request] + [response])
      && IsCurrent(st'.scope, t.permit)
  {
    var u := st.scope.selected;
    var s1 := Do(cfg, st, Paused(request));
    assert s1 == st.(scope := st.scope.(requests := map[request.requestID := ScopedRequest(u, "", 0)]),
                     trace := st.trace + [request]);
  }

  /** The selected URL is answered with a PDF and nothing interferes: it is accepted, at any selection. */
  lemma AnsweredPDFIsAccepted(cfg: Config, st: State, request: Event, response: Event, bytes: Bytes)
    requires st.loop == Waiting && st.scope.requests == map[] && st.scope.frame == cfg.frame && st.scope.selected != ""
    requires DirectAnswer(cfg, st.scope.selected, request, response) && st.pdfs == [] && IsPDF(bytes)
    ensures var i := |st.tasks|;
      var s2 := Do(cfg, Do(cfg, st, Paused(request)), Paused(response));
      Do(cfg, Do(cfg, Read(cfg, s2, i, bytes), Deliver(i)), TakePDF).loop
      == Accepted(Body(response.requestID, response.url, st.scope.generation, bytes, 200))
  {
    AnsweredSelection(cfg, st, request, response);
    CurrentPDFIsAccepted(cfg, Do(cfg, Do(cfg, st, Paused(request)), Paused(response)), |st.tasks|, bytes);
  }

  /** From a waiting loop: the selection is answered with a page, the page is queued, taken and mined, and a candidate
      is selected. */
  function Mined(cfg: Config, st: State, request: Event, response: Event, page: Bytes, candidates: seq<string>,
                 k: nat): State {
    var i := |st.tasks|;
    var s2 := Do(cfg, Do(cfg, st, Paused(request)), Paused(response));
    var s3 := Do(cfg, Do(cfg, Read(cfg, s2, i, page), RecordHTML(i)), Deliver(i));
    Tries(cfg, Do(cfg, Do(cfg, s3, TakeHTML), Rendered(candidates)), k + 1)
  }

  lemma AnsweredPageIsMined(cfg: Config, st: State, request: Event, response: Event, page: Bytes,
                            candidates: seq<string>, k: nat)
    requires st.loop == Waiting && st.scope.requests == map[] && st.scope.frame == cfg.frame && st.scope.selected != ""
    requires DirectAnswer(cfg, st.scope.selected, request, response)
    requires st.htmls == [] && page != [] && !IsPDF(page)
    requires k < |candidates| && Usable(cfg, st.visited, candidates[k])
    requires forall i :: 0 <= i < k ==> !Usable(cfg, st.visited, candidates[i])
    ensures var st' := Mined(cfg, st, request, response, page, candidates, k);
      var u := cfg.urls.normalize(candidates[k]);
      && st'.scope == Scope(cfg.frame, cfg.urls.normalize(u), st.scope.generation + 1, map[])
      && st'.visited == st.visited + {u} && st'.loop == Waiting && st'.pdfs == st.pdfs && st'.htmls == []
  {
    var i := |st.tasks|;
    AnsweredSelection(cfg, st, request, response);
    var s2 := Do(cfg, Do(cfg, st, Paused(request)), Paused(response));
    CurrentPageIsQueued(cfg, s2, i, page);
    var s3 := Do(cfg, Do(cfg, Read(cfg, s2, i, page), RecordHTML(i)), Deliver(i));
    FirstUsableCandidateIsSelected(cfg, s3, candidates, k);
  }

  /** The landing page of the target names the PDF: the page is mined, its first usable candidate is selected, and the
      PDF that answers it is accepted as the second selection's. */
  lemma LandingPageLeadsToThePDF(cfg: Config, rawURL: string, request: Event, response: Event, page: Bytes,
                                 candidates: seq<string>, k: nat, request2: Event, response2: Event, bytes: Bytes)
    requires var u := cfg.urls.normalize(rawURL);
      u != "" && cfg.urls.normalize(u) == u && DirectAnswer(cfg, u, request, response)
    requires page != [] && !IsPDF(page) && IsPDF(bytes)
    requires var visited := {cfg.urls.normalize(rawURL)};
      && k < |candidates| && Usable(cfg, visited, candidates[k])
      && forall i :: 0 <= i < k ==> !Usable(cfg, visited, candidates[i])
    requires DirectAnswer(cfg, cfg.urls.normalize(cfg.urls.normalize(candidates[k])), request2, response2)
    ensures var s1 := Mined(cfg, Do(cfg, Start(rawURL), TryCandidate), request, response, page, candidates, k);
      var s2 := Do(cfg, Do(cfg, s1, Paused(request2)), Paused(response2));
      Do(cfg, Do(cfg, Read(cfg, s2, |s1.tasks|, bytes), Deliver(|s1.tasks|)), TakePDF).loop
      == Accepted(Body(response2.requestID, response2.url, 2, bytes, 200))
  {
    TargetIsSelected(cfg, rawURL);
    var st := Do(cfg, Start(rawURL), TryCandidate);
    AnsweredPageIsMined(cfg, st, request, response, page, candidates, k);
    AnsweredPDFIsAccepted(cfg, Mined(cfg, st, request, response, page, candidates, k), request2, response2, bytes);
  }

  // ---------------------------------------------------------------- what comes out

  /** The magic bytes, and a trailer: "%%EOF" in the last 2048 bytes or "startxref" anywhere. */
  predicate StartsLikePDF(bytes: Bytes) {
    |bytes| >= 5 && bytes[0] == 37 && bytes[1] == 80 && bytes[2] == 68 && bytes[3] == 70 && bytes[4] == 45
  }

  predicate EOFAt(bytes: Bytes, i: nat) {
    i + 5 <= |bytes| && bytes[i..i + 5] == [37, 37, 69, 79, 70]
  }

  predicate StartxrefAt(bytes: Bytes, i: nat) {
    i + 9 <= |bytes| && bytes[i..i + 9] == [115, 116, 97, 114, 116, 120, 114, 101, 102]
  }

  lemma MagicExactly(bytes: Bytes)
    ensures IsPDF(bytes) <==> StartsLikePDF(bytes)
  {
    if StartsLikePDF(bytes) {
      assert bytes[..5] == [0x25, 0x50, 0x44, 0x46, 0x2D];
    }
  }

  lemma TailHasEOF(bytes: Bytes, tail: Bytes, k: nat)
    requires k <= |bytes| && tail == bytes[k..]
    ensures Contains(tail, [0x25, 0x25, 0x45, 0x4F, 0x46]) <==> exists i: nat :: k <= i < |bytes| && EOFAt(bytes, i)
  {
    var eof: Bytes := [0x25, 0x25, 0x45, 0x4F, 0x46];
    if i: nat :| i <= |tail| && OccursAt(tail, eof, i) {
      assert tail[i..i + 5] == bytes[k + i..k + i + 5];
      assert EOFAt(bytes, k + i);
    }
    if i: nat :| k <= i < |bytes| && EOFAt(bytes, i) {
      assert tail[i - k..i - k + 5] == bytes[i..i + 5];
      assert OccursAt(tail, eof, i - k);
    }
  }

  lemma TrailerExactly(bytes: Bytes)
    ensures HasTrailer(bytes)
      <==> || (exists i: nat :: |bytes| - 2048 <= i < |bytes| && EOFAt(bytes, i))
           || exists i: nat :: i < |bytes| && StartxrefAt(bytes, i)
  {
    var k := if |bytes| > 2048 then |bytes| - 2048 else 0;
    assert bytes[0..] == bytes;
    TailHasEOF(bytes, if |bytes| > 2048 then bytes[|bytes| - 2048..] else bytes, k);
    if i: nat :| i <= |bytes| && OccursAt(bytes, [0x73, 0x74, 0x61, 0x72, 0x74, 0x78, 0x72, 0x65, 0x66], i) {
      assert StartxrefAt(bytes, i);
    }
    if i: nat :| i < |bytes| && StartxrefAt(bytes, i) {
      assert OccursAt(bytes, [0x73, 0x74, 0x61, 0x72, 0x74, 0x78, 0x72, 0x65, 0x66], i);
    }
  }

  /** A body that is not a complete answer is refused for the first reason that applies. */
  lemma RefusedForTheFirstReason(cfg: Config, b: Body)
    ensures ValidateBody(cfg, b) == NotPDF <==> !StartsLikePDF(b.bytes)
    ensures ValidateBody(cfg, b) == BadStatus <==> StartsLikePDF(b.bytes) && b.status !in {0, 200}
    ensures ValidateBody(cfg, b) == TooLarge
      <==> StartsLikePDF(b.bytes) && b.status in {0, 200} && |b.bytes| > cfg.maxPDFBytes
    ensures ValidateBody(cfg, b) == Truncated
      <==> && StartsLikePDF(b.bytes) && b.status in {0, 200} && |b.bytes| <= cfg.maxPDFBytes && !HasTrailer(b.bytes)
    ensures ValidateBody(cfg, b).Complete? ==> ValidateBody(cfg, b).body == b
  {
    MagicExactly(b.bytes);
  }

  /** A time-out ends the wait with the last page there was, and FetchPDF then answers that it is no PDF, or a time-out
      when there was none. */
  lemma TimeoutAnswers(cfg: Config, rawURL: string, steps: seq<Step>)
    requires Run(cfg, rawURL, steps).loop == Waiting
    ensures var st := Run(cfg, rawURL, steps);
      var st' := Do(cfg, st, Timeout);
      && st' == st.(loop := TimedOut(st.lastHTML))
      && FetchPDF(cfg, st') == if st.lastHTML.None? then TimeoutError else NotPDF
  {
    RunKeepsInv(cfg, rawURL, steps);
  }

  // ---------------------------------------------------------------- what a redirect declares

  /** The header name a redirect is read from, in any letter case. */
  lemma LocationInAnyCase(name: string)
    ensures IsLocation(name)
      <==> && |name| == 8 && name[0] in "lL" && name[1] in "oO" && name[2] in "cC" && name[3] in "aA"
           && name[4] in "tT" && name[5] in "iI" && name[6] in "oO" && name[7] in "nN"
  {
    if |name| == 8 {
      var word := "location";
      assert IsLocation(name) <==>
        && Text.Lower(name[0]) == word[0] && Text.Lower(name[1]) == word[1] && Text.Lower(name[2]) == word[2]
        && Text.Lower(name[3]) == word[3] && Text.Lower(name[4]) == word[4] && Text.Lower(name[5]) == word[5]
        && Text.Lower(name[6]) == word[6] && Text.Lower(name[7]) == word[7];
    }
  }

  /** Where a redirect response leads: its first Location, resolved against its own URL and normalised. */
  predicate LocatedAt(e: Event, i: nat) {
    i < |e.headers| && IsLocation(e.headers[i].name) && forall j :: 0 <= j < i ==> !IsLocation(e.headers[j].name)
  }

  lemma {:induction false} FirstLocationExactly(headers: seq<Header>, i: nat)
    requires i < |headers| && IsLocation(headers[i].name) && forall j :: 0 <= j < i ==> !IsLocation(headers[j].name)
    ensures FirstLocation(headers) == Some(headers[i].value)
  {
    if i > 0 {
      assert headers[1..][i - 1] == headers[i] && !IsLocation(headers[0].name);
      FirstLocationExactly(headers[1..], i - 1);
    }
  }

  lemma {:induction false} NoLocation(headers: seq<Header>)
    requires forall j :: 0 <= j < |headers| ==> !IsLocation(headers[j].name)
    ensures FirstLocation(headers) == None
  {
    if headers != [] {
      assert !IsLocation(headers[0].name);
      NoLocation(headers[1..]);
    }
  }

  /** An event with a status or an error is a response; it redirects when its status is one of five, and says where
      exactly when it has a Location header. */
  lemma RedirectDeclares(urls: Urls, e: Event, i: nat)
    ensures IsResponse(e) <==> e.status != 0 || e.errorReason != ""
    ensures IsRedirect(e) <==> e.status in {301, 302, 303, 307, 308}
    ensures LocatedAt(e, i) ==>
      NextURL(urls, e) == Some(urls.normalize(urls.resolve(e.headers[i].value, urls.normalize(e.url))))
    ensures NextURL(urls, e).Some? <==> exists k: nat :: LocatedAt(e, k)
  {
    if LocatedAt(e, i) {
      FirstLocationExactly(e.headers, i);
    }
    if exists j: nat :: j < |e.headers| && IsLocation(e.headers[j].name) {
      var k := FirstOne(e);
      FirstLocationExactly(e.headers, k);
    } else {
      NoLocation(e.headers);
    }
  }

  lemma FirstOne(e: Event) returns (k: nat)
    requires exists j: nat :: j < |e.headers| && IsLocation(e.headers[j].name)
    ensures LocatedAt(e, k)
  {
    k := 0;
    while !IsLocation(e.headers[k].name)
      invariant k < |e.headers| && forall j :: 0 <= j < k ==> !IsLocation(e.headers[j].name)
      invariant exists j: nat :: k <= j < |e.headers| && IsLocation(e.headers[j].name)
      decreases |e.headers| - k
    {
      k := k + 1;
    }
  }
}
