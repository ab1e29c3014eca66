/** The browser lane's acceptance boundary: which paused Fetch events belong to the navigation that
    is currently selected.  URL normalisation and resolution are parameters: any functions do. */
module NavigationScope {
  import opened Text
  import opened Options

  /** `normalize` is browserHTTPURL, where "" means rejected; `resolve` is absolutize. */
  datatype Urls = Urls(normalize: string -> string, resolve: (string, string) -> string)

  datatype Header = Header(name: string, value: string)

  /** fetch.EventRequestPaused, as far as observe looks at it. */
  datatype Event = Event(
    hasRequest: bool, isDocument: bool, frameID: string, requestID: string, url: string,
    redirectedFrom: string, status: int, errorReason: string, headers: seq<Header>)

  datatype ScopedRequest = ScopedRequest(url: string, nextURL: string, redirects: nat)

  datatype Permit = Permit(generation: nat, request: string, url: string)

  datatype Scope = Scope(frame: string, selected: string, generation: nat, requests: map<string, ScopedRequest>)

  const MAX_REDIRECTS := 8

  predicate IsResponse(e: Event) {
    e.status != 0 || e.errorReason != ""
  }

  predicate IsRedirect(e: Event) {
    e.status == 301 || e.status == 302 || e.status == 303 || e.status == 307 || e.status == 308
  }

  /** strings.EqualFold(name, "Location"); none of its letters folds outside ASCII. */
  predicate IsLocation(name: string) {
    |name| == 8 && forall i :: 0 <= i < 8 ==> Lower(name[i]) == "location"[i]
  }

  /** The value of the first Location header. */
  function FirstLocation(headers: seq<Header>): Option<string> {
    if headers == [] then None
    else if IsLocation(headers[0].name) then Some(headers[0].value)
    else FirstLocation(headers[1..])
  }

  /** Where a redirect response sends its request, if it says. */
  function NextURL(urls: Urls, e: Event): Option<string> {
    match FirstLocation(e.headers)
    case None => None
    case Some(value) => Some(urls.normalize(urls.resolve(value, urls.normalize(e.url))))
  }

  /** Document traffic of the main frame, with a usable URL, while a navigation is selected. */
  predicate InScope(urls: Urls, s: Scope, e: Event) {
    && e.hasRequest && e.isDocument
    && e.frameID != "" && e.frameID == s.frame && urls.normalize(e.url) != "" && s.selected != ""
  }

  /** A request the scope admits: the selected URL itself, or the declared target of a known redirect. */
  predicate Admits(urls: Urls, s: Scope, e: Event) {
    var u := urls.normalize(e.url);
    if e.redirectedFrom != "" then
      && e.redirectedFrom in s.requests
      && s.requests[e.redirectedFrom].nextURL == u && s.requests[e.redirectedFrom].redirects < MAX_REDIRECTS
    else u == s.selected
  }

  predicate Knows(urls: Urls, s: Scope, e: Event) {
    e.requestID in s.requests && s.requests[e.requestID].url == urls.normalize(e.url)
  }

  /** The scope after one event. */
  function Observed(urls: Urls, s: Scope, e: Event): Scope {
    if !InScope(urls, s, e) then s
    else if !IsResponse(e) then
      if !Admits(urls, s, e) then s
      else
        var depth := if e.redirectedFrom != "" then s.requests[e.redirectedFrom].redirects + 1 else 0;
        s.(requests := s.requests[e.requestID := ScopedRequest(urls.normalize(e.url), "", depth)])
    else if Knows(urls, s, e) && IsRedirect(e) then
      var next := NextURL(urls, e);
      if next.None? then s
      else s.(requests := s.requests[e.requestID := s.requests[e.requestID].(nextURL := next.value)])
    else s
  }

  /** Only a final response of an admitted request may have its body read. */
  predicate Captures(urls: Urls, s: Scope, e: Event) {
    InScope(urls, s, e) && IsResponse(e) && Knows(urls, s, e) && !IsRedirect(e) && e.errorReason == ""
  }

  function Granted(urls: Urls, s: Scope, e: Event): Option<Permit> {
    if Captures(urls, s, e) then Some(Permit(s.generation, e.requestID, urls.normalize(e.url))) else None
  }

  predicate CanSelect(urls: Urls, frame: string, rawURL: string) {
    frame != "" && urls.normalize(rawURL) != ""
  }

  function Selected(urls: Urls, s: Scope, frame: string, rawURL: string): Scope {
    if CanSelect(urls, frame, rawURL) then Scope(frame, urls.normalize(rawURL), s.generation + 1, map[]) else s
  }

  predicate IsCurrent(s: Scope, p: Permit) {
    p.request in s.requests && p.generation == s.generation && s.requests[p.request].url == p.url
  }

  class BrowserNavigationScope {
    const urls: Urls
    var frame: string
    var selected: string
    var generation: nat
    var requests: map<string, ScopedRequest>

    function View(): Scope
      reads this
    {
      Scope(frame, selected, generation, requests)
    }

    constructor (urls: Urls)
      ensures this.urls == urls && View() == Scope("", "", 0, map[])
    {
      this.urls := urls;
      frame, selected, generation, requests := "", "", 0, map[];
    }

    method SelectNavigation(frameID: string, rawURL: string) returns (ok: bool)
      modifies this
      ensures ok == CanSelect(urls, frameID, rawURL)
      ensures View() == Selected(urls, old(View()), frameID, rawURL)
    {
      var u := urls.normalize(rawURL);
      if frameID == "" || u == "" {
        return false;
      }
      frame, selected := frameID, u;
      generation := generation + 1;
      requests := map[];
      ok := true;
    }

    method Observe(e: Event) returns (permit: Option<Permit>)
      modifies this
      ensures permit == Granted(urls, old(View()), e)
      ensures View() == Observed(urls, old(View()), e)
    {
      if !e.hasRequest || !e.isDocument {
        return None;
      }
      var u := urls.normalize(e.url);
      if e.frameID == "" || e.frameID != frame || u == "" || selected == "" {
        return None;
      }
      if e.status == 0 && e.errorReason == "" {
        var request := ScopedRequest(u, "", 0);
        if e.redirectedFrom != "" {
          if e.redirectedFrom !in requests {
            return None;
          }
          var parent := requests[e.redirectedFrom];
          if parent.nextURL != u || parent.redirects >= 8 {
            return None;
          }
          request := request.(redirects := parent.redirects + 1);
        } else if u != selected {
          return None;
        }
        requests := requests[e.requestID := request];
        return None;
      }
      if e.requestID !in requests || requests[e.requestID].url != u {
        return None;
      }
      var request := requests[e.requestID];
      if e.status in [301, 302, 303, 307, 308] {
        var i := 0;
        while i < |e.headers|
          invariant 0 <= i <= |e.headers|
          invariant FirstLocation(e.headers) == FirstLocation(e.headers[i..])
          invariant request == requests[e.requestID]
        {
          assert e.headers[i..][1..] == e.headers[i + 1..];
          if IsLocation(e.headers[i].name) {
            request := request.(nextURL := urls.normalize(urls.resolve(e.headers[i].value, u)));
            break;
          }
          i := i + 1;
        }
        requests := requests[e.requestID := request];
        return None;
      }
      if e.errorReason != "" {
        return None;
      }
      permit := Some(Permit(generation, e.requestID, u));
    }

    method Current(permit: Permit) returns (ok: bool)
      ensures ok == IsCurrent(View(), permit)
    {
      if permit.request !in requests {
        return false;
      }
      var request := requests[permit.request];
      ok := permit.generation == generation && request.url == permit.url;
    }
  }
}
