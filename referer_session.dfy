/** The referer-sticking session of the Chromium background page
    (`stickRefererToResource`). When a PDF is redirected to the viewer, the
    viewer fetches the PDF again with `XMLHttpRequest`; the session adds the
    original page's `Referer` (section 5.5.2 of RFC 7231) to that fetch. It is
    a set of registered listeners: every incoming event either leaves the set
    alone, shrinks it (teardown) or, for the viewer's handshake, swaps the
    coarse teardown triggers for the disconnect of the viewer's port.
    Registration is taken to be idempotent: adding a listener that is
    already registered leaves it registered once. */
module RefererSticking {
  import opened Wrappers
  import opened JsText
  import opened Browser
  import opened Headers

  /** The listeners a session registers: `onReceivePort`, `onTabRemoved`,
      `onBeforeNavigate`, `onBeforeSendHeaders`, and `unstickHandlers` on the
      viewer port's `onDisconnect`. */
  datatype Listener =
    | ConnectListener
    | TabRemovedListener
    | BeforeNavigateListener
    | SendHeadersListener
    | DisconnectListener

  /** The four listeners `stickRefererToResource` registers and
      `unstickHandlers` removes. */
  const StuckListeners: set<Listener> :=
    {ConnectListener, TabRemovedListener, BeforeNavigateListener, SendHeadersListener}

  /** The listener set once the viewer's handshake was accepted. */
  const HandshakenListeners: set<Listener> :=
    {TabRemovedListener, SendHeadersListener, DisconnectListener}

  /** What the session's closures capture: the tab and frame of the redirected
      request, the PDF's URL and the referer to add. */
  datatype Session = Session(tabId: int, frameId: int, pdfUrl: string, referer: string)

  /** `stickRefererToResource(requestId, tabId, frameId, pdfUrl)`: the session
      it arms, or `None` when it returns before registering anything. */
  function StickSession(cache: map<string, seq<Header>>, requestId: string, tabId: int, frameId: int,
                        pdfUrl: string): (r: Option<Session>)
    ensures r.Some? ==> (requestId in cache && r.value.referer != []
      && r.value == Session(tabId, frameId, pdfUrl, r.value.referer)
      && exists i :: Lookup(cache[requestId], "referer") == Some(i)
                     && cache[requestId][i].value == Some(r.value.referer))
    ensures r.None? <==> (requestId !in cache
      || Lookup(cache[requestId], "referer").None?
      || (exists i :: Lookup(cache[requestId], "referer") == Some(i)
                      && cache[requestId][i].value in {None, Some([])}))
  {
    if requestId !in cache then None
    else match Lookup(cache[requestId], "referer")
      case None => None
      case Some(i) =>
        match cache[requestId][i].value
        case None => None
        case Some(referer) => if referer == [] then None else Some(Session(tabId, frameId, pdfUrl, referer))
  }

  /** The events a session listens to. A request-header event carries the
      request and its header list. */
  datatype Event =
    | PortConnected(port: Port)
    | TabRemoved(removedTabId: int)
    | NavigationStarting(nav: Navigation)
    | SendingHeaders(request: RequestDetails, headers: seq<Header>)
    | PortDisconnected

  /** The listener set after an event, and the header list the event's
      handler returned, if any. */
  datatype Reaction = Reaction(registered: set<Listener>, headers: Option<seq<Header>>)

  /** The port name the viewer connects with. */
  const AliveChannel: string := "chromecom-is-alive"

  /** The handshake test as written: it reads `port.sender.tabId`, but a
      message sender has no such property (its tab is `sender.tab`), so the
      read yields `undefined`, which differs from every tab id. `Sender`
      holds only the properties a message sender has, so the rejection rests
      on that shape of the browser's `MessageSender`. */
  predicate HandshakeAcceptedAsWritten(s: Session, port: Port) {
    var senderTabId: Option<int> := None;
    port.name == AliveChannel && senderTabId == Some(s.tabId) && port.sender.frameId == Some(s.frameId)
  }

  /** The handshake test as intended: the viewer's port comes from the
      session's tab and frame. */
  predicate HandshakeAccepted(s: Session, port: Port) {
    port.name == AliveChannel && port.sender.tab == Some(Tab(s.tabId)) && port.sender.frameId == Some(s.frameId)
  }

  /** The port the viewer opens from the session's frame. */
  function ViewerPort(s: Session): Port {
    Port(AliveChannel, Sender(Some(Tab(s.tabId)), Some(s.frameId)))
  }

  /** As written, even the viewer's own port is turned away, so the session is
      never handed over to the port-disconnect trigger. */
  lemma ViewerHandshakeRejectedAsWritten(s: Session)
    ensures HandshakeAccepted(s, ViewerPort(s))
    ensures forall port :: !HandshakeAcceptedAsWritten(s, port)
  {
  }

  /** `unstickHandlers()`: removes the four listeners, whichever are still
      registered. */
  function Unstick(registered: set<Listener>): set<Listener> {
    registered - StuckListeners
  }

  /** The scope of the `onBeforeSendHeaders` registration: the PDF's URL,
      `xmlhttprequest` requests, the session's tab. */
  predicate InScope(s: Session, request: RequestDetails) {
    request.url == s.pdfUrl && request.resourceType == "xmlhttprequest" && request.tabId == s.tabId
  }

  /** A referer value that did not come from the extension's own page: the
      sanity check of `onBeforeSendHeaders`. */
  predicate ForeignReferer(value: Option<string>) {
    value.Some? && value.value != [] && !StartsWith(value.value, "chrome-extension:")
  }

  /** `onBeforeSendHeaders` for a request of the session's frame. */
  function InjectReferer(s: Session, registered: set<Listener>, headers: seq<Header>): Reaction {
    match Lookup(headers, "referer")
    case None => Reaction(registered, Some(headers + [Header("Referer", Some(s.referer))]))
    case Some(i) =>
      if ForeignReferer(headers[i].value) then Reaction(Unstick(registered), None)
      else Reaction(registered, Some(headers[i := headers[i].(value := Some(s.referer))]))
  }

  /** The session's reaction to one event. An event reaches a handler only
      while that handler is registered. */
  function Next(s: Session, registered: set<Listener>, e: Event): Reaction {
    match e
    case PortConnected(port) =>
      if ConnectListener in registered && HandshakeAccepted(s, port) then
        // `onDisconnect.addListener(unstickHandlers)`, remove `onReceivePort`,
        // add `onTabRemoved` again, remove `onBeforeNavigate`
        Reaction(registered + {DisconnectListener} - {ConnectListener} + {TabRemovedListener} - {BeforeNavigateListener}, None)
      else Reaction(registered, None)
    case TabRemoved(id) =>
      if TabRemovedListener in registered && id == s.tabId then Reaction(Unstick(registered), None)
      else Reaction(registered, None)
    case NavigationStarting(nav) =>
      if BeforeNavigateListener in registered && nav.tabId == s.tabId
         && (nav.frameId == s.frameId || nav.frameId == 0)
      then Reaction(Unstick(registered), None)
      else Reaction(registered, None)
    case SendingHeaders(request, headers) =>
      if SendHeadersListener in registered && InScope(s, request) && request.frameId == s.frameId
      then InjectReferer(s, registered, headers)
      else Reaction(registered, None)
    case PortDisconnected =>
      // a port disconnects once, so its listener cannot fire again
      if DisconnectListener in registered then Reaction(Unstick(registered) - {DisconnectListener}, None)
      else Reaction(registered, None)
  }

  /** The listener sets a session can be in: armed, armed after the
      handshake, torn down while the port is still open, torn down. */
  predicate Reachable(registered: set<Listener>) {
    registered == StuckListeners || registered == HandshakenListeners
    || registered == {DisconnectListener} || registered == {}
  }

  /** Every event keeps the listener set among the reachable ones. */
  lemma NextPreservesReachable(s: Session, registered: set<Listener>, e: Event)
    requires Reachable(registered)
    ensures Reachable(Next(s, registered, e).registered)
  {
  }

  /** Headers are only ever returned by the injection rule, for a request in
      the session's scope and frame while the rule is registered; the
      returned list then carries the session's referer in its first referer
      header, has at most one header more, and keeps every other header.
      Exactly: without a referer header one `Referer` header is appended;
      otherwise the first one, not foreign, keeps its name and takes the
      session's referer, and every other header, later referer headers
      included, stays where it was. */
  lemma InjectionSpec(s: Session, registered: set<Listener>, e: Event)
    requires Next(s, registered, e).headers.Some?
    ensures e.SendingHeaders? && SendHeadersListener in registered
      && InScope(s, e.request) && e.request.frameId == s.frameId
    ensures var out := Next(s, registered, e).headers.value;
      ValueOf(out, "referer") == Some(Some(s.referer))
      && (|out| == |e.headers| || |out| == |e.headers| + 1)
      && (forall j :: 0 <= j < |e.headers| && !NameIs(e.headers[j], "referer") ==> out[j] == e.headers[j])
      && Next(s, registered, e).registered == registered
    ensures var out := Next(s, registered, e).headers.value;
      match Lookup(e.headers, "referer")
      case None => out == e.headers + [Header("Referer", Some(s.referer))]
      case Some(i) =>
        !ForeignReferer(e.headers[i].value) && out == e.headers[i := Header(e.headers[i].name, Some(s.referer))]
  {
    var hs := e.headers;
    match Lookup(hs, "referer")
    case None =>
      var h := Header("Referer", Some(s.referer));
      LowerLetters("Referer", "referer");
      LookupAfterPush(hs, h, "referer");
    case Some(i) =>
      LookupAfterSetValue(hs, i, Some(s.referer), "referer");
  }

  /** A referer that did not come from the extension stops the session and
      leaves the request's headers alone; an empty or extension referer is
      overwritten. */
  lemma ForeignRefererTearsDown(s: Session, registered: set<Listener>, request: RequestDetails, headers: seq<Header>, i: nat)
    requires SendHeadersListener in registered && InScope(s, request) && request.frameId == s.frameId
    requires Lookup(headers, "referer") == Some(i)
    ensures var reaction := Next(s, registered, SendingHeaders(request, headers));
      (ForeignReferer(headers[i].value) <==> reaction.headers.None?)
      && (ForeignReferer(headers[i].value) ==> reaction.registered * StuckListeners == {})
  {
  }

  /** Requests from another frame are never changed and change nothing. */
  lemma OtherFrameUntouched(s: Session, registered: set<Listener>, request: RequestDetails, headers: seq<Header>)
    requires request.frameId != s.frameId
    ensures Next(s, registered, SendingHeaders(request, headers)) == Reaction(registered, None)
  {
  }

  /** Teardown removes every listener the session registered at once;
      repeating it changes nothing. */
  lemma TeardownRemovesAll(s: Session, registered: set<Listener>, e: Event)
    requires Reachable(registered) && SendHeadersListener in registered
    requires SendHeadersListener !in Next(s, registered, e).registered
    ensures Next(s, registered, e).registered * StuckListeners == {}
    ensures Unstick(Next(s, registered, e).registered) == Next(s, registered, e).registered
  {
  }

  /** The teardown triggers of an armed session: a removal of its tab, and,
      before the handshake, navigation in its frame or in the tab's main
      frame. */
  lemma TeardownTriggers(s: Session, nav: Navigation)
    requires nav.tabId == s.tabId && (nav.frameId == s.frameId || nav.frameId == 0)
    ensures Next(s, StuckListeners, TabRemoved(s.tabId)).registered == {}
    ensures Next(s, HandshakenListeners, TabRemoved(s.tabId)).registered == {DisconnectListener}
    ensures Next(s, StuckListeners, NavigationStarting(nav)).registered == {}
    ensures Next(s, HandshakenListeners, NavigationStarting(nav)) == Reaction(HandshakenListeners, None)
    ensures Next(s, HandshakenListeners, PortDisconnected).registered == {}
  {
  }

  /** The viewer's handshake removes the connect and navigation listeners and
      adds the port-disconnect trigger; the tab-removed listener is added
      again rather than removed, so it stays registered. */
  lemma HandshakeKeepsTabRemoved(s: Session)
    ensures Next(s, StuckListeners, PortConnected(ViewerPort(s))) == Reaction(HandshakenListeners, None)
    ensures TabRemovedListener in HandshakenListeners
  {
  }

  /** The reactions to a sequence of events, in order. */
  function Trace(s: Session, registered: set<Listener>, events: seq<Event>): (t: seq<Reaction>)
    ensures |t| == |events|
    decreases |events|
  {
    if events == [] then []
    else
      var first := Next(s, registered, events[0]);
      [first] + Trace(s, first.registered, events[1..])
  }

  /** Once the injection rule is removed, no later event changes a header or
      registers it again: teardown is final. */
  lemma {:induction false} TornDownStaysQuiet(s: Session, registered: set<Listener>, events: seq<Event>)
    requires SendHeadersListener !in registered
    ensures forall k :: 0 <= k < |events| ==>
      Trace(s, registered, events)[k].headers.None? && SendHeadersListener !in Trace(s, registered, events)[k].registered
    decreases |events|
  {
    if events != [] {
      var first := Next(s, registered, events[0]);
      TornDownStaysQuiet(s, first.registered, events[1..]);
      var t := Trace(s, registered, events);
      assert t == [first] + Trace(s, first.registered, events[1..]);
      forall k | 0 <= k < |events|
        ensures t[k].headers.None? && SendHeadersListener !in t[k].registered
      {
        if k > 0 {
          assert t[k] == Trace(s, first.registered, events[1..])[k - 1];
        }
      }
    }
  }

  /** The listener set stays reachable over any sequence of events. */
  lemma {:induction false} TraceReachable(s: Session, registered: set<Listener>, events: seq<Event>)
    requires Reachable(registered)
    ensures forall k :: 0 <= k < |events| ==> Reachable(Trace(s, registered, events)[k].registered)
    decreases |events|
  {
    if events != [] {
      var first := Next(s, registered, events[0]);
      NextPreservesReachable(s, registered, events[0]);
      TraceReachable(s, first.registered, events[1..]);
      var t := Trace(s, registered, events);
      forall k | 0 <= k < |events|
        ensures Reachable(t[k].registered)
      {
        if k > 0 {
          assert t[k] == Trace(s, first.registered, events[1..])[k - 1];
        }
      }
    }
  }

  /** A session for tab 7, frame 2. A fetch of the PDF
      from frame 2 gets the referer, the same fetch from frame 3 is left
      alone, and after tab 7 closes the fetch from frame 2 is left alone. */
  lemma StickyExample(pdfUrl: string, referer: string, headers: seq<Header>)
    requires Lookup(headers, "referer").None?
    ensures var s := Session(7, 2, pdfUrl, referer);
      var fetch := RequestDetails("r1", pdfUrl, "GET", "xmlhttprequest", 7, 2);
      var other := fetch.(frameId := 3);
      Trace(s, StuckListeners, [SendingHeaders(fetch, headers), SendingHeaders(other, headers),
                                TabRemoved(7), SendingHeaders(fetch, headers)])
      == [Reaction(StuckListeners, Some(headers + [Header("Referer", Some(referer))])),
          Reaction(StuckListeners, None), Reaction({}, None), Reaction({}, None)]
  {
    var s := Session(7, 2, pdfUrl, referer);
    var fetch := RequestDetails("r1", pdfUrl, "GET", "xmlhttprequest", 7, 2);
    var other := fetch.(frameId := 3);
    var events := [SendingHeaders(fetch, headers), SendingHeaders(other, headers),
                   TabRemoved(7), SendingHeaders(fetch, headers)];
    assert Trace(s, {}, events[3..]) == [Reaction({}, None)];
    assert events[2..][0] == TabRemoved(7) && events[2..][1..] == events[3..];
    assert Unstick(StuckListeners) == {};
    assert Trace(s, StuckListeners, events[2..]) == [Reaction({}, None)] + Trace(s, {}, events[3..]);
    assert events[1..][1..] == events[2..];
    assert Trace(s, StuckListeners, events[1..]) == [Reaction(StuckListeners, None)] + Trace(s, StuckListeners, events[2..]);
  }

  /** A session of the background page: the listener set it has registered,
      changed by the handlers as the browser delivers events. */
  class RefererSession {
    const session: Session
    var registered: set<Listener>

    predicate Valid()
      reads this
    {
      Reachable(registered)
    }

    /** The four `addListener` calls of `stickRefererToResource`. */
    constructor (session: Session)
      ensures this.session == session && registered == StuckListeners && Valid()
    {
      this.session := session;
      registered := StuckListeners;
    }

    /** `unstickHandlers()`. */
    method UnstickHandlers()
      requires Valid()
      modifies this
      ensures registered == Unstick(old(registered)) && Valid()
    {
      registered := registered - {ConnectListener};
      registered := registered - {TabRemovedListener};
      registered := registered - {BeforeNavigateListener};
      registered := registered - {SendHeadersListener};
    }

    /** A port connecting to the background page, delivered to
      `onReceivePort` while it is registered. */
    method OnConnect(port: Port)
      requires Valid()
      modifies this
      ensures registered == Next(session, old(registered), PortConnected(port)).registered && Valid()
    {
      if ConnectListener !in registered || port.name != AliveChannel {
        return;
      }
      if port.sender.tab != Some(Tab(session.tabId)) || port.sender.frameId != Some(session.frameId) {
        return;
      }
      registered := registered + {DisconnectListener};
      registered := registered - {ConnectListener};
      registered := registered + {TabRemovedListener};
      registered := registered - {BeforeNavigateListener};
    }

    /** `onTabRemoved(removedTabId)`. */
    method OnTabRemoved(removedTabId: int)
      requires Valid()
      modifies this
      ensures registered == Next(session, old(registered), TabRemoved(removedTabId)).registered && Valid()
    {
      if TabRemovedListener in registered && removedTabId == session.tabId {
        UnstickHandlers();
      }
    }

    /** `onBeforeNavigate(details)`. */
    method OnBeforeNavigate(nav: Navigation)
      requires Valid()
      modifies this
      ensures registered == Next(session, old(registered), NavigationStarting(nav)).registered && Valid()
    {
      if BeforeNavigateListener !in registered || nav.tabId != session.tabId {
        return;
      }
      if nav.frameId == session.frameId || nav.frameId == 0 {
        UnstickHandlers();
      }
    }

    /** `unstickHandlers` run by the viewer port's `onDisconnect`. */
    method OnPortDisconnect()
      requires Valid()
      modifies this
      ensures registered == Next(session, old(registered), PortDisconnected).registered && Valid()
    {
      if DisconnectListener in registered {
        UnstickHandlers();
        registered := registered - {DisconnectListener};
      }
    }

    /** `onBeforeSendHeaders(details)` on the request's header list, which it
      changes in place and returns when it adds the referer. */
    method OnBeforeSendHeaders(request: RequestDetails, headers: HeaderList) returns (r: Option<HeaderList>)
      requires Valid()
      modifies this, headers
      ensures var reaction := Next(session, old(registered), SendingHeaders(request, old(headers.items)));
        registered == reaction.registered
        && (reaction.headers.Some? ==> r == Some(headers) && headers.items == reaction.headers.value)
        && (reaction.headers.None? ==> r == None && headers.items == old(headers.items))
      ensures Valid()
    {
      if SendHeadersListener !in registered || !InScope(session, request) || request.frameId != session.frameId {
        return None;
      }
      var found := GetHeaderFromHeaders(headers.items, "referer");
      var i: nat;
      if found.None? {
        headers.Push(Header("Referer", None));
        i := |headers.items| - 1;
      } else if ForeignReferer(headers.items[found.value].value) {
        UnstickHandlers();
        return None;
      } else {
        i := found.value;
      }
      headers.SetValue(i, session.referer);
      return Some(headers);
    }
  }
}
