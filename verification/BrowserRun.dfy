/** The browser lane's event loop and its capture goroutines, as steps in any order: the listener
    observes events, goroutines check, read, check again and deliver, the loop selects and accepts. */
module BrowserRun {
  import opened NavigationScope
  import opened Provenance
  import opened Options
  import Hex

  type Bytes = Hex.Bytes

  /** `request` is the Fetch request the bytes were read from. */
  datatype Body = Body(request: string, url: string, navigation: nat, bytes: Bytes, status: int)

  /** How far the goroutine of one captured event has come. */
  datatype Stage = Spawned | Reading | Fetched(bytes: Bytes) | Checked(body: Body) | Recorded(page: Body) | Gone

  datatype Task = Task(permit: Permit, url: string, status: int, stage: Stage)

  datatype Loop =
    | Waiting
    | Rendering(html: Body)
    | Choosing(candidates: seq<string>, minedFrom: Option<Body>)
    | Accepted(body: Body)
    | TimedOut(last: Option<Body>)

  /** `trace` records the events observed since the last selection; no step reads it. */
  datatype State = State(
    scope: Scope, visited: set<string>, tasks: seq<Task>, pdfs: seq<Body>, htmls: seq<Body>,
    lastHTML: Option<Body>, loop: Loop, trace: seq<Event>)

  datatype Config = Config(urls: Urls, frame: string, maxPDFBytes: int)

  datatype Step =
    | Paused(e: Event)
    | CheckPermit(i: nat)
    | ReadBody(i: nat, bytes: Bytes)
    | CheckAgain(i: nat)
    | RecordHTML(i: nat)
    | Deliver(i: nat)
    | TakePDF
    | TakeHTML
    | Rendered(candidates: seq<string>)
    | RenderCancelled
    | TryCandidate
    | Timeout

  const QUEUE_CAP := 8
  const MAX_SELECTIONS := 8

  predicate OccursAt(s: Bytes, sub: Bytes, i: nat) {
    i + |sub| <= |s| && s[i..i + |sub|] == sub
  }

  predicate Contains(s: Bytes, sub: Bytes) {
    exists i: nat | i <= |s| :: OccursAt(s, sub, i)
  }

  /** ClassifyBody answers BodyPDF exactly for the magic bytes "%PDF-". */
  predicate IsPDF(bytes: Bytes) {
    [0x25, 0x50, 0x44, 0x46, 0x2D] <= bytes
  }

  /** "%%EOF" among the last 2048 bytes, or "startxref" anywhere. */
  predicate HasTrailer(bytes: Bytes) {
    || Contains(if |bytes| > 2048 then bytes[|bytes| - 2048..] else bytes, [0x25, 0x25, 0x45, 0x4F, 0x46])
    || Contains(bytes, [0x73, 0x74, 0x61, 0x72, 0x74, 0x78, 0x72, 0x65, 0x66])
  }

  // ---------------------------------------------------------------- steps

  function SetStage(st: State, i: nat, stage: Stage): State
    requires i < |st.tasks|
  {
    st.(tasks := st.tasks[i := st.tasks[i].(stage := stage)])
  }

  /** A channel send that gives up when the buffer is full. */
  function TrySend(queue: seq<Body>, b: Body): seq<Body> {
    if |queue| < QUEUE_CAP then queue + [b] else queue
  }

  function TaskStep(st: State, i: nat, step: Step): State
    requires i < |st.tasks|
  {
    var t := st.tasks[i];
    match (step, t.stage)
    case (CheckPermit(_), Spawned) => SetStage(st, i, if IsCurrent(st.scope, t.permit) then Reading else Gone)
    case (ReadBody(_, bytes), Reading) => SetStage(st, i, if bytes == [] then Gone else Fetched(bytes))
    case (CheckAgain(_), Fetched(bytes)) =>
      SetStage(st, i, if IsCurrent(st.scope, t.permit)
                      then Checked(Body(t.permit.request, t.url, t.permit.generation, bytes, t.status)) else Gone)
    case (RecordHTML(_), Checked(b)) =>
      if IsPDF(b.bytes) then st else SetStage(st.(lastHTML := Some(b)), i, Recorded(b))
    case (Deliver(_), Checked(b)) =>
      if IsPDF(b.bytes) then SetStage(st.(pdfs := TrySend(st.pdfs, b)), i, Gone) else st
    case (Deliver(_), Recorded(b)) => SetStage(st.(htmls := TrySend(st.htmls, b)), i, Gone)
    case _ => st
  }

  function Observe(cfg: Config, st: State, e: Event): State {
    var granted := Granted(cfg.urls, st.scope, e);
    st.(scope := Observed(cfg.urls, st.scope, e),
        trace := st.trace + [e],
        tasks := if granted.Some? then st.tasks + [Task(granted.value, e.url, e.status, Spawned)] else st.tasks)
  }

  /** navigateTo's guard. */
  predicate Navigable(cfg: Config, st: State, raw: string) {
    var u := cfg.urls.normalize(raw);
    u != "" && u !in st.visited && |st.visited| < MAX_SELECTIONS && CanSelect(cfg.urls, cfg.frame, u)
  }

  function NavigateTo(cfg: Config, st: State, raw: string): State {
    var u := cfg.urls.normalize(raw);
    st.(scope := Selected(cfg.urls, st.scope, cfg.frame, u), visited := st.visited + {u}, trace := [], loop := Waiting)
  }

  function LoopStep(cfg: Config, st: State, step: Step): State {
    match (step, st.loop)
    case (TakePDF, Waiting) =>
      if st.pdfs == [] then st
      else if st.pdfs[0].navigation == st.scope.generation then st.(pdfs := st.pdfs[1..], loop := Accepted(st.pdfs[0]))
      else st.(pdfs := st.pdfs[1..])
    case (TakeHTML, Waiting) =>
      if st.htmls == [] then st
      else if st.htmls[0].navigation == st.scope.generation then
        st.(htmls := st.htmls[1..], loop := Rendering(st.htmls[0]))
      else st.(htmls := st.htmls[1..])
    case (Rendered(candidates), Rendering(html)) =>
      if html.navigation == st.scope.generation then st.(loop := Choosing(candidates, Some(html)))
      else st.(loop := Waiting)
    case (RenderCancelled, Rendering(_)) => st.(loop := Waiting)
    case (TryCandidate, Choosing(candidates, from)) =>
      if candidates == [] then st.(loop := Waiting)
      else if Navigable(cfg, st, candidates[0]) then NavigateTo(cfg, st, candidates[0])
      else st.(loop := Choosing(candidates[1..], from))
    case (Timeout, Waiting) => st.(loop := TimedOut(st.lastHTML))
    case _ => st
  }

  /** One atomic step of some goroutine; a step that is not enabled, or comes after navigate returned, does nothing. */
  function Do(cfg: Config, st: State, step: Step): State {
    if st.loop.Accepted? || st.loop.TimedOut? then st
    else match step
      case Paused(e) => Observe(cfg, st, e)
      case CheckPermit(i) => if i < |st.tasks| then TaskStep(st, i, step) else st
      case ReadBody(i, _) => if i < |st.tasks| then TaskStep(st, i, step) else st
      case CheckAgain(i) => if i < |st.tasks| then TaskStep(st, i, step) else st
      case RecordHTML(i) => if i < |st.tasks| then TaskStep(st, i, step) else st
      case Deliver(i) => if i < |st.tasks| then TaskStep(st, i, step) else st
      case _ => LoopStep(cfg, st, step)
  }

  function Start(rawURL: string): State {
    State(Scope("", "", 0, map[]), {}, [], [], [], None, Choosing([rawURL], None), [])
  }

  /** navigate(rawURL) after the given interleaving. */
  function Run(cfg: Config, rawURL: string, steps: seq<Step>): State {
    if steps == [] then Start(rawURL)
    else Do(cfg, Run(cfg, rawURL, steps[..|steps| - 1]), steps[|steps| - 1])
  }

  datatype Fetch = Complete(body: Body) | TimeoutError | NotPDF | BadStatus | TooLarge | Truncated

  function ValidateBody(cfg: Config, b: Body): Fetch {
    if !IsPDF(b.bytes) then NotPDF
    else if b.status != 0 && b.status != 200 then BadStatus
    else if |b.bytes| > cfg.maxPDFBytes then TooLarge
    else if !HasTrailer(b.bytes) then Truncated
    else Complete(b)
  }

  /** What FetchPDF answers once navigate returned. */
  function FetchPDF(cfg: Config, st: State): Fetch
    requires st.loop.Accepted? || st.loop.TimedOut?
  {
    match st.loop
    case Accepted(b) => ValidateBody(cfg, b)
    case TimedOut(last) => if last.Some? then ValidateBody(cfg, last.value) else TimeoutError
  }

  // ---------------------------------------------------------------- the invariant

  function Nav(st: State): Navigation {
    Navigation(st.scope.frame, st.scope.selected, st.trace)
  }

  /** Bytes of the current generation come from a justified response; no generation is from the future. */
  ghost predicate Tied(urls: Urls, n: Navigation, generation: nat, navigation: nat, request: string, url: string,
                       status: int) {
    navigation <= generation && (navigation == generation ==> status != 0 && Justified(urls, n, request, url, status))
  }

  ghost predicate BodyTied(urls: Urls, n: Navigation, generation: nat, b: Body) {
    Tied(urls, n, generation, b.navigation, b.request, b.url, b.status)
  }

  ghost predicate TaskTied(urls: Urls, n: Navigation, generation: nat, t: Task) {
    && Tied(urls, n, generation, t.permit.generation, t.permit.request, t.url, t.status)
    && (t.stage.Checked? ==> BodyTied(urls, n, generation, t.stage.body))
    && (t.stage.Recorded? ==> BodyTied(urls, n, generation, t.stage.page) && !IsPDF(t.stage.page.bytes))
  }

  ghost predicate TasksTied(urls: Urls, n: Navigation, generation: nat, tasks: seq<Task>) {
    forall i :: 0 <= i < |tasks| ==> TaskTied(urls, n, generation, tasks[i])
  }

  ghost predicate QueueTied(urls: Urls, n: Navigation, generation: nat, queue: seq<Body>, pdf: bool) {
    && |queue| <= QUEUE_CAP
    && forall i :: 0 <= i < |queue| ==> BodyTied(urls, n, generation, queue[i]) && IsPDF(queue[i].bytes) == pdf
  }

  ghost predicate LoopTied(urls: Urls, n: Navigation, generation: nat, loop: Loop) {
    match loop
    case Waiting => true
    case Rendering(html) => BodyTied(urls, n, generation, html) && html.navigation == generation
    case Choosing(_, from) => from.Some? ==>
      BodyTied(urls, n, generation, from.value) && from.value.navigation == generation
    case Accepted(b) => BodyTied(urls, n, generation, b) && b.navigation == generation && IsPDF(b.bytes)
    case TimedOut(last) => last.Some? ==> !IsPDF(last.value.bytes)
  }

  ghost predicate Inv(cfg: Config, st: State) {
    && Faithful(cfg.urls, st.scope, Nav(st))
    && TasksTied(cfg.urls, Nav(st), st.scope.generation, st.tasks)
    && QueueTied(cfg.urls, Nav(st), st.scope.generation, st.pdfs, true)
    && QueueTied(cfg.urls, Nav(st), st.scope.generation, st.htmls, false)
    && (st.lastHTML.Some? ==> !IsPDF(st.lastHTML.value.bytes))
    && LoopTied(cfg.urls, Nav(st), st.scope.generation, st.loop)
    && st.scope.generation == |st.visited| <= MAX_SELECTIONS
    && st.scope.frame == (if st.visited == {} then "" else cfg.frame)
    && (st.visited == {} ==> st.scope.selected == "")
  }

  lemma TiedKept(urls: Urls, n: Navigation, e: Event, generation: nat, navigation: nat, request: string, url: string,
                 status: int)
    requires Tied(urls, n, generation, navigation, request, url, status)
    ensures Tied(urls, Then(n, e), generation, navigation, request, url, status)
  {
    if navigation == generation {
      JustifiedKept(urls, n, e, request, url, status);
    }
  }

  lemma TaskTiedKept(urls: Urls, n: Navigation, e: Event, generation: nat, t: Task)
    requires TaskTied(urls, n, generation, t)
    ensures TaskTied(urls, Then(n, e), generation, t)
  {
    TiedKept(urls, n, e, generation, t.permit.generation, t.permit.request, t.url, t.status);
    match t.stage
    case Checked(b) => TiedKept(urls, n, e, generation, b.navigation, b.request, b.url, b.status);
    case Recorded(b) => TiedKept(urls, n, e, generation, b.navigation, b.request, b.url, b.status);
    case _ =>
  }

  lemma QueueTiedKept(urls: Urls, n: Navigation, e: Event, generation: nat, queue: seq<Body>, pdf: bool)
    requires QueueTied(urls, n, generation, queue, pdf)
    ensures QueueTied(urls, Then(n, e), generation, queue, pdf)
  {
    forall i | 0 <= i < |queue| ensures BodyTied(urls, Then(n, e), generation, queue[i]) {
      TiedKept(urls, n, e, generation, queue[i].navigation, queue[i].request, queue[i].url, queue[i].status);
    }
  }

  lemma LoopTiedKept(urls: Urls, n: Navigation, e: Event, generation: nat, loop: Loop)
    requires LoopTied(urls, n, generation, loop)
    ensures LoopTied(urls, Then(n, e), generation, loop)
  {
    match loop
    case Rendering(b) => TiedKept(urls, n, e, generation, b.navigation, b.request, b.url, b.status);
    case Choosing(_, from) =>
      if from.Some? {
        TiedKept(urls, n, e, generation, from.value.navigation, from.value.request, from.value.url,
                 from.value.status);
      }
    case Accepted(b) => TiedKept(urls, n, e, generation, b.navigation, b.request, b.url, b.status);
    case _ =>
  }

  lemma ObserveKeepsTasks(cfg: Config, st: State, e: Event)
    requires Faithful(cfg.urls, st.scope, Nav(st))
    requires TasksTied(cfg.urls, Nav(st), st.scope.generation, st.tasks)
    ensures TasksTied(cfg.urls, Then(Nav(st), e), st.scope.generation, Observe(cfg, st, e).tasks)
  {
    forall i | 0 <= i < |st.tasks| ensures TaskTied(cfg.urls, Then(Nav(st), e), st.scope.generation, st.tasks[i]) {
      TaskTiedKept(cfg.urls, Nav(st), e, st.scope.generation, st.tasks[i]);
    }
    if Captures(cfg.urls, st.scope, e) {
      GrantedIsJustified(cfg.urls, st.scope, Nav(st), e);
    }
  }

  lemma ObserveKeepsInv(cfg: Config, st: State, e: Event)
    requires Inv(cfg, st)
    ensures Inv(cfg, Observe(cfg, st, e))
  {
    var g := st.scope.generation;
    assert Nav(Observe(cfg, st, e)) == Then(Nav(st), e);
    ObserveKeepsFaithful(cfg.urls, st.scope, Nav(st), e);
    ObserveKeepsTasks(cfg, st, e);
    QueueTiedKept(cfg.urls, Nav(st), e, g, st.pdfs, true);
    QueueTiedKept(cfg.urls, Nav(st), e, g, st.htmls, false);
    LoopTiedKept(cfg.urls, Nav(st), e, g, st.loop);
  }

  lemma TaskStepKeepsInv(cfg: Config, st: State, i: nat, step: Step)
    requires Inv(cfg, st) && i < |st.tasks|
    ensures Inv(cfg, TaskStep(st, i, step))
  {
    var st' := TaskStep(st, i, step);
    var n, g := Nav(st), st.scope.generation;
    assert TaskTied(cfg.urls, n, g, st.tasks[i]);
    forall k | 0 <= k < |st'.tasks| ensures TaskTied(cfg.urls, n, g, st'.tasks[k]) {
      assert TaskTied(cfg.urls, n, g, st.tasks[k]);
    }
  }

  /** A new selection leaves every earlier permit and body behind. */
  lemma SelectKeepsInv(cfg: Config, st: State, raw: string)
    requires Inv(cfg, st) && Navigable(cfg, st, raw)
    ensures Inv(cfg, NavigateTo(cfg, st, raw))
  {
    var st' := NavigateTo(cfg, st, raw);
    forall i | 0 <= i < |st.tasks| ensures TaskTied(cfg.urls, Nav(st'), st'.scope.generation, st.tasks[i]) {
      assert TaskTied(cfg.urls, Nav(st), st.scope.generation, st.tasks[i]);
    }
  }

  lemma LoopStepKeepsInv(cfg: Config, st: State, step: Step)
    requires Inv(cfg, st)
    ensures Inv(cfg, LoopStep(cfg, st, step))
  {
    if step.TryCandidate? && st.loop.Choosing? {
      if st.loop.candidates != [] && Navigable(cfg, st, st.loop.candidates[0]) {
        SelectKeepsInv(cfg, st, st.loop.candidates[0]);
      }
    } else if step.TakePDF? {
      TakingKeepsInv(cfg, st, step);
    } else if step.TakeHTML? {
      TakingKeepsInv(cfg, st, step);
    }
  }

  lemma TakingKeepsInv(cfg: Config, st: State, step: Step)
    requires Inv(cfg, st) && (step.TakePDF? || step.TakeHTML?)
    ensures Inv(cfg, LoopStep(cfg, st, step))
  {
  }

  lemma {:induction false} RunKeepsInv(cfg: Config, rawURL: string, steps: seq<Step>)
    ensures Inv(cfg, Run(cfg, rawURL, steps))
  {
    if steps != [] {
      var st, step := Run(cfg, rawURL, steps[..|steps| - 1]), steps[|steps| - 1];
      RunKeepsInv(cfg, rawURL, steps[..|steps| - 1]);
      match step
      case Paused(e) => ObserveKeepsInv(cfg, st, e);
      case CheckPermit(i) => if i < |st.tasks| { TaskStepKeepsInv(cfg, st, i, step); }
      case ReadBody(i, _) => if i < |st.tasks| { TaskStepKeepsInv(cfg, st, i, step); }
      case CheckAgain(i) => if i < |st.tasks| { TaskStepKeepsInv(cfg, st, i, step); }
      case RecordHTML(i) => if i < |st.tasks| { TaskStepKeepsInv(cfg, st, i, step); }
      case Deliver(i) => if i < |st.tasks| { TaskStepKeepsInv(cfg, st, i, step); }
      case _ => LoopStepKeepsInv(cfg, st, step);
    }
  }

  // ---------------------------------------------------------------- the theorems

  /** Whatever the interleaving, accepted bytes answer the main frame's document request for a URL that at
      most 8 declared redirects join to the URL selected at that moment. */
  lemma AcceptedBytesBelongToTheSelection(cfg: Config, rawURL: string, steps: seq<Step>)
    requires Run(cfg, rawURL, steps).loop.Accepted?
    ensures var st := Run(cfg, rawURL, steps);
      && IsPDF(st.loop.body.bytes)
      && st.loop.body.navigation == st.scope.generation && st.scope.frame == cfg.frame
      && Justified(cfg.urls, Nav(st), st.loop.body.request, st.loop.body.url, st.loop.body.status)
  {
    RunKeepsInv(cfg, rawURL, steps);
    var st := Run(cfg, rawURL, steps);
    var c: nat, p: nat, hops: nat :| FinalAt(cfg.urls, Nav(st), c, p, hops);
    ReachedMeansSelected(cfg.urls, Nav(st), p, hops);
  }

  /** A next hop is only chosen from a page that itself belongs to the current selection. */
  lemma NextHopIsMinedFromTheSelection(cfg: Config, rawURL: string, steps: seq<Step>)
    requires var loop := Run(cfg, rawURL, steps).loop; loop.Choosing? && loop.minedFrom.Some?
    ensures var st := Run(cfg, rawURL, steps);
      && st.loop.minedFrom.value.navigation == st.scope.generation
      && Justified(cfg.urls, Nav(st), st.loop.minedFrom.value.request, st.loop.minedFrom.value.url,
                   st.loop.minedFrom.value.status)
  {
    RunKeepsInv(cfg, rawURL, steps);
  }

  /** At most 8 selections, each of a URL not selected before. */
  lemma SelectionsAreBounded(cfg: Config, rawURL: string, steps: seq<Step>)
    ensures var st := Run(cfg, rawURL, steps); st.scope.generation == |st.visited| <= 8
  {
    RunKeepsInv(cfg, rawURL, steps);
  }

  /** FetchPDF succeeds exactly when the loop accepted a body that is a complete 200 answer within the limit;
      in particular the page a timeout returns, which may be an abandoned navigation's, never passes. */
  lemma FetchSucceedsExactly(cfg: Config, rawURL: string, steps: seq<Step>)
    requires var loop := Run(cfg, rawURL, steps).loop; loop.Accepted? || loop.TimedOut?
    ensures var st := Run(cfg, rawURL, steps);
      FetchPDF(cfg, st).Complete? <==>
      && st.loop.Accepted? && st.loop.body.status == 200
      && |st.loop.body.bytes| <= cfg.maxPDFBytes && HasTrailer(st.loop.body.bytes)
  {
    RunKeepsInv(cfg, rawURL, steps);
  }

  // ---------------------------------------------------------------- the ordinary course

  /** The request and the final response of a navigation straight to `url`. */
  predicate DirectAnswer(cfg: Config, url: string, request: Event, response: Event) {
    && OnMainFrame(cfg.urls, cfg.frame, request) && OnMainFrame(cfg.urls, cfg.frame, response)
    && !IsResponse(request) && request.redirectedFrom == "" && cfg.urls.normalize(request.url) == url
    && SameRequest(cfg.urls, request, response)
    && response.status == 200 && response.errorReason == ""
  }

  /** Selected, requested and answered: a goroutine holds a current permit. */
  function Answered(cfg: Config, rawURL: string, request: Event, response: Event): State {
    Do(cfg, Do(cfg, Do(cfg, Start(rawURL), TryCandidate), Paused(request)), Paused(response))
  }

  /** The first goroutine runs to its end and the loop takes what it delivered. */
  function ReadAndTaken(cfg: Config, st: State, bytes: Bytes): State {
    Do(cfg, Do(cfg, Do(cfg, Do(cfg, Do(cfg, st, CheckPermit(0)), ReadBody(0, bytes)), CheckAgain(0)), Deliver(0)),
      TakePDF)
  }

  lemma TargetIsSelected(cfg: Config, rawURL: string)
    requires var u := cfg.urls.normalize(rawURL); u != "" && cfg.urls.normalize(u) == u && cfg.frame != ""
    ensures var u := cfg.urls.normalize(rawURL);
      Do(cfg, Start(rawURL), TryCandidate) == State(Scope(cfg.frame, u, 1, map[]), {u}, [], [], [], None, Waiting, [])
  {
    assert {} + {cfg.urls.normalize(rawURL)} == {cfg.urls.normalize(rawURL)};
  }

  lemma AnswerIsPermitted(cfg: Config, rawURL: string, request: Event, response: Event)
    requires var u := cfg.urls.normalize(rawURL);
      u != "" && cfg.urls.normalize(u) == u && DirectAnswer(cfg, u, request, response)
    ensures var u := cfg.urls.normalize(rawURL);
      Answered(cfg, rawURL, request, response)
      == State(Scope(cfg.frame, u, 1, map[request.requestID := ScopedRequest(u, "", 0)]), {u},
               [Task(Permit(1, request.requestID, u), response.url, 200, Spawned)], [], [], None, Waiting,
                 [request, response])
  {
    TargetIsSelected(cfg, rawURL);
    RequestIsRecorded(cfg, rawURL, request, response);
  }

  lemma RequestIsRecorded(cfg: Config, rawURL: string, request: Event, response: Event)
    requires var u := cfg.urls.normalize(rawURL);
      u != "" && cfg.urls.normalize(u) == u && DirectAnswer(cfg, u, request, response)
    ensures var u := cfg.urls.normalize(rawURL);
      Do(cfg, State(Scope(cfg.frame, u, 1, map[]), {u}, [], [], [], None, Waiting, []), Paused(request))
      == State(Scope(cfg.frame, u, 1, map[request.requestID := ScopedRequest(u, "", 0)]), {u}, [], [], [], None,
        Waiting, [request])
  {
  }

  lemma PermittedPDFIsTaken(cfg: Config, st: State, t: Task, bytes: Bytes)
    requires st.loop == Waiting && st.pdfs == [] && st.tasks == [t] && t.stage == Spawned
    requires IsCurrent(st.scope, t.permit) && IsPDF(bytes)
    ensures ReadAndTaken(cfg, st, bytes).loop
        == Accepted(Body(t.permit.request, t.url, t.permit.generation, bytes, t.status))
  {
    var b := Body(t.permit.request, t.url, t.permit.generation, bytes, t.status);
    var s1 := Do(cfg, st, CheckPermit(0));
    assert s1 == st.(tasks := [t.(stage := Reading)]);
    var s2 := Do(cfg, s1, ReadBody(0, bytes));
    assert s2 == st.(tasks := [t.(stage := Fetched(bytes))]);
    var s3 := Do(cfg, s2, CheckAgain(0));
    assert s3 == st.(tasks := [t.(stage := Checked(b))]);
    var s4 := Do(cfg, s3, Deliver(0));
    assert s4 == st.(tasks := [t.(stage := Gone)], pdfs := [b]);
  }

  /** When the target answers with a PDF and nothing interferes, it is accepted. */
  lemma DirectPDFIsAccepted(cfg: Config, rawURL: string, request: Event, response: Event, bytes: Bytes)
    requires var u := cfg.urls.normalize(rawURL);
      u != "" && cfg.urls.normalize(u) == u && DirectAnswer(cfg, u, request, response)
    requires IsPDF(bytes)
    ensures ReadAndTaken(cfg, Answered(cfg, rawURL, request, response), bytes).loop
            == Accepted(Body(response.requestID, response.url, 1, bytes, 200))
  {
    AnswerIsPermitted(cfg, rawURL, request, response);
    var u := cfg.urls.normalize(rawURL);
    PermittedPDFIsTaken(cfg, Answered(cfg, rawURL, request, response),
                        Task(Permit(1, request.requestID, u), response.url, 200, Spawned), bytes);
  }
}
