/** The port-driven referer preservation of the Chromium extension: the
    viewer opens a port named `set-referer` followed by a JSON object with the
    PDF's URL pattern and the referer; the background page then adds that
    referer to the viewer's requests for the PDF until the port closes. */
module PreserveReferer {
  import opened Wrappers
  import opened JsText
  import opened Browser
  import opened Headers
  import opened RefererSticking

  // ---------------------------------------------------------------------
  // The created `onBeforeSendHeaders` listener

  /** `createOnBeforeSendHeadersListener(frameId, referer)` applied to a
      request: requests of other frames get no answer; otherwise the first
      referer header (appended when missing) is set to `referer`, whatever it
      held. A missing `referer` leaves the header without a value. */
  function PreservedHeaders(frameId: int, referer: Option<string>, request: RequestDetails,
                            headers: seq<Header>): Option<seq<Header>> {
    if request.frameId != frameId then None
    else match Lookup(headers, "referer")
      case None => Some(headers + [Header("Referer", referer)])
      case Some(i) => Some(headers[i := headers[i].(value := referer)])
  }

  /** The listener answers exactly the requests of its frame, and its answer
      has `referer` in the first referer header, at most one header more, and
      every other header as it was. Exactly: without a referer header one
      `Referer` header is appended; otherwise the first one keeps its name and
      takes `referer`, and every other header, later referer headers
      included, stays where it was. */
  lemma PreservedHeadersSpec(frameId: int, referer: Option<string>, request: RequestDetails, headers: seq<Header>)
    ensures PreservedHeaders(frameId, referer, request, headers).Some? <==> request.frameId == frameId
    ensures var out := PreservedHeaders(frameId, referer, request, headers);
      out.Some? ==> (ValueOf(out.value, "referer") == Some(referer)
        && (|out.value| == |headers| || |out.value| == |headers| + 1)
        && forall j :: 0 <= j < |headers| && !NameIs(headers[j], "referer") ==> out.value[j] == headers[j])
    ensures var out := PreservedHeaders(frameId, referer, request, headers);
      out.Some? ==> match Lookup(headers, "referer")
        case None => out.value == headers + [Header("Referer", referer)]
        case Some(i) => out.value == headers[i := Header(headers[i].name, referer)]
  {
    if request.frameId == frameId {
      match Lookup(headers, "referer")
      case None =>
        LowerLetters("Referer", "referer");
        LookupAfterPush(headers, Header("Referer", referer), "referer");
      case Some(i) =>
        LookupAfterSetValue(headers, i, referer, "referer");
    }
  }

  /** Running the listener on its own answer changes nothing more. */
  lemma PreservedHeadersIdempotent(frameId: int, referer: Option<string>, request: RequestDetails, headers: seq<Header>)
    requires request.frameId == frameId
    ensures var once := PreservedHeaders(frameId, referer, request, headers).value;
      PreservedHeaders(frameId, referer, request, once) == Some(once)
  {
    var once := PreservedHeaders(frameId, referer, request, headers).value;
    PreservedHeadersSpec(frameId, referer, request, headers);
    var i := Lookup(once, "referer").value;
    assert once[i := once[i].(value := referer)] == once;
  }

  /** Unlike the referer-sticking session, the listener overwrites any
      referer; where the session does not tear down, the two agree. */
  lemma AgreesWithStickySession(s: Session, registered: set<Listener>, request: RequestDetails, headers: seq<Header>)
    requires SendHeadersListener in registered && InScope(s, request) && request.frameId == s.frameId
    requires match Lookup(headers, "referer")
      case None => true
      case Some(i) => !ForeignReferer(headers[i].value)
    ensures Next(s, registered, SendingHeaders(request, headers)).headers
      == PreservedHeaders(s.frameId, Some(s.referer), request, headers)
  {
  }

  /** The listener on the request's header list, changed in place. */
  method OnBeforeSendHeaders(frameId: int, referer: Option<string>, request: RequestDetails, headers: HeaderList)
    returns (r: Option<HeaderList>)
    modifies headers
    ensures var out := PreservedHeaders(frameId, referer, request, old(headers.items));
      (out.Some? ==> r == Some(headers) && headers.items == out.value)
      && (out.None? ==> r == None && headers.items == old(headers.items))
  {
    if request.frameId != frameId {
      return None;
    }
    var found := GetHeaderFromHeaders(headers.items, "referer");
    var i: nat;
    if found.None? {
      headers.Push(Header("Referer", None));
      i := |headers.items| - 1;
    } else {
      i := found.value;
    }
    headers.items := headers.items[i := headers.items[i].(value := referer)];
    return Some(headers);
  }

  // ---------------------------------------------------------------------
  // The `onConnect` handler

  const SetRefererPrefix: string := "set-referer"

  /** `/^set-referer(.+)$/.exec(name)`: the captured text, when the name
      starts with `set-referer` and the rest is non-empty and holds no line
      terminator (which `.` does not match). */
  function SetRefererPayload(name: string): Option<string> {
    if StartsWith(name, SetRefererPrefix) && |name| > |SetRefererPrefix|
       && forall i :: |SetRefererPrefix| <= i < |name| ==> !IsLineTerminator(name[i])
    then Some(name[|SetRefererPrefix|..])
    else None
  }

  /** The name the viewer builds is read back: the capture is the text after
      the prefix, and no other name yields a capture. */
  lemma SetRefererPayloadRoundTrip(name: string, text: string)
    ensures SetRefererPayload(SetRefererPrefix + text) ==
      (if text != [] && forall i :: 0 <= i < |text| ==> !IsLineTerminator(text[i]) then Some(text) else None)
    ensures SetRefererPayload(name).Some? ==> name == SetRefererPrefix + SetRefererPayload(name).value
  {
    var name' := SetRefererPrefix + text;
    assert name'[..|SetRefererPrefix|] == SetRefererPrefix;
    assert name'[|SetRefererPrefix|..] == text;
    assert forall i :: 0 <= i < |text| ==> name'[|SetRefererPrefix| + i] == text[i];
    if SetRefererPayload(name).Some? {
      assert name == name[..|SetRefererPrefix|] + name[|SetRefererPrefix|..];
    }
  }

  /** The JSON values the handler can get back, as far as it reads them: an
      object's `url` and `referer` members (absent or not a string reads as
      `None`), `null`, or any other value, whose members are all absent. */
  datatype JsonValue = JsonNull | JsonObject(url: Option<string>, referer: Option<string>) | JsonOther

  /** The white space JSON allows before a value (section 2 of RFC 8259). */
  predicate IsJsonSpace(c: char) {
    c == ' ' || c == '\t' || c == '\n' || c == '\r'
  }

  /** The characters a JSON value can start with. */
  predicate IsJsonValueStart(c: char) {
    c == '{' || c == '[' || c == '"' || c == '-' || ('0' <= c <= '9') || c == 't' || c == 'f' || c == 'n'
  }

  /** The text after the leading JSON white space. */
  function SkipJsonSpace(text: string): (r: string)
    ensures |r| <= |text| && r == text[|text| - |r|..]
    ensures forall i :: 0 <= i < |text| - |r| ==> IsJsonSpace(text[i])
    ensures r != [] ==> !IsJsonSpace(r[0])
  {
    if text != [] && IsJsonSpace(text[0]) then SkipJsonSpace(text[1..]) else text
  }

  /** `JSON.parse(text)`. The grammar past the first character of the value is
      not part of this model: `parse` stands for it, and is consulted only
      when the text can start a value. Any failure is a `SyntaxError`. */
  function JsonParse(text: string, parse: string -> Option<JsonValue>): Result<JsonValue, Fault> {
    var rest := SkipJsonSpace(text);
    if rest == [] || !IsJsonValueStart(rest[0]) then Failure(SyntaxError)
    else match parse(text)
      case None => Failure(SyntaxError)
      case Some(v) => Success(v)
  }

  /** The listener a registration stands for: its filter and the frame and
      referer it was created with. */
  datatype Registration = Registration(urlPattern: string, tabId: int, frameId: int, referer: Option<string>)

  /** What the `onConnect` handler does with a port. */
  datatype ConnectResult =
    | Ignored                                    // not a `set-referer` port
    | Disconnected                               // no frame id: `port.disconnect()`
    | Faulted(fault: Fault)                      // the handler throws
    | Registered(registration: Registration)     // listener added, port acknowledged

  /** The members of the parsed value, read after `JSON.parse` and before
      `port.sender.tab.id`; then the listener is added with `urls: [url]`,
      which the browser refuses, throwing, when `url` is not a string. */
  function RegisterFrom(parsed: JsonValue, sender: Sender): ConnectResult
    requires sender.frameId.Some?
  {
    if parsed.JsonNull? || sender.tab.None? then Faulted(TypeError)
    else if !parsed.JsonObject? || parsed.url.None? then Faulted(ArgumentError)
    else Registered(Registration(parsed.url.value, sender.tab.value.id, sender.frameId.value, parsed.referer))
  }

  /** The handler as written: `JSON.parse` is given the match array, whose
      string form is the whole name, a comma and the capture. */
  function ConnectDecisionAsWritten(port: Port, parse: string -> Option<JsonValue>): ConnectResult {
    match SetRefererPayload(port.name)
    case None => Ignored
    case Some(payload) =>
      if port.sender.frameId.None? then Disconnected
      else match JsonParse(port.name + "," + payload, parse)
        case Failure(f) => Faulted(f)
        case Success(v) => RegisterFrom(v, port.sender)
  }

  /** As written no port is ever registered: a matching name starts with
      `s`, which no JSON text does, so every port with a frame id throws. */
  lemma ConnectAsWrittenNeverRegisters(port: Port, parse: string -> Option<JsonValue>)
    ensures var r := ConnectDecisionAsWritten(port, parse);
      r == Ignored || r == Disconnected || r == Faulted(SyntaxError)
  {
    match SetRefererPayload(port.name)
    case None =>
    case Some(payload) =>
      if port.sender.frameId.Some? {
        var text := port.name + "," + payload;
        assert text[0] == 's';
        assert SkipJsonSpace(text) == text;
      }
  }

  /** The handler as intended: `JSON.parse` is given the captured text. */
  function ConnectDecision(port: Port, parse: string -> Option<JsonValue>): ConnectResult {
    match SetRefererPayload(port.name)
    case None => Ignored
    case Some(payload) =>
      if port.sender.frameId.None? then Disconnected
      else match JsonParse(payload, parse)
        case Failure(f) => Faulted(f)
        case Success(v) => RegisterFrom(v, port.sender)
  }

  /** The viewer's port, named `set-referer` followed by a JSON object, from
      a frame of a tab, is registered with the object's URL and referer, the
      tab and the frame. */
  lemma ConnectRegistersViewer(text: string, tab: Tab, frameId: int, url: string, referer: Option<string>,
                               parse: string -> Option<JsonValue>)
    requires text != [] && text[0] == '{' && forall i :: 0 <= i < |text| ==> !IsLineTerminator(text[i])
    requires parse(text) == Some(JsonObject(Some(url), referer))
    ensures ConnectDecision(Port(SetRefererPrefix + text, Sender(Some(tab), Some(frameId))), parse)
      == Registered(Registration(url, tab.id, frameId, referer))
  {
    SetRefererPayloadRoundTrip(SetRefererPrefix + text, text);
  }

  /** Names other than `set-referer` ones are ignored, a sender without a
      frame id is disconnected before anything is parsed, and a parsed value
      without a string `url` is never registered. */
  lemma ConnectGuards(port: Port, parse: string -> Option<JsonValue>)
    ensures SetRefererPayload(port.name).None? ==> ConnectDecision(port, parse) == Ignored
    ensures SetRefererPayload(port.name).Some? && port.sender.frameId.None? ==>
      ConnectDecision(port, parse) == Disconnected
    ensures ConnectDecision(port, parse).Registered? ==>
      (port.sender.frameId == Some(ConnectDecision(port, parse).registration.frameId)
       && port.sender.tab == Some(Tab(ConnectDecision(port, parse).registration.tabId)))
    ensures var payload := SetRefererPayload(port.name);
      payload.Some? && port.sender.frameId.Some? && port.sender.tab.Some?
      && JsonParse(payload.value, parse).Success? && JsonParse(payload.value, parse).value != JsonNull
      ==> (ConnectDecision(port, parse).Registered? <==>
           JsonParse(payload.value, parse).value.JsonObject? && JsonParse(payload.value, parse).value.url.Some?)
  {
  }

  /** The filter of a registered listener: the URL pattern (taken as the one
      URL it names), `xmlhttprequest` requests, the tab. */
  predicate InFilter(reg: Registration, request: RequestDetails) {
    reg.urlPattern == request.url && request.resourceType == "xmlhttprequest" && request.tabId == reg.tabId
  }

  /** The background script's state: the registered listeners by the port
      that asked for them, the ports acknowledged, and the ports it
      disconnected. Port identities are supplied by the caller. */
  class RefererPreserver {
    var handlers: map<nat, Registration>
    var acknowledged: set<nat>
    var disconnected: set<nat>

    /** Every registered listener was acknowledged, and no acknowledged port
        was disconnected by the background. */
    predicate Valid()
      reads this
    {
      handlers.Keys <= acknowledged && acknowledged * disconnected == {}
    }

    constructor ()
      ensures handlers == map[] && acknowledged == {} && disconnected == {} && Valid()
    {
      handlers := map[];
      acknowledged := {};
      disconnected := {};
    }

    /** The `onConnect` handler for a newly opened port. */
    method OnConnect(portId: nat, port: Port, parse: string -> Option<JsonValue>) returns (result: ConnectResult)
      requires Valid() && portId !in acknowledged && portId !in disconnected
      modifies this
      ensures result == ConnectDecision(port, parse)
      ensures result.Registered? ==>
        handlers == old(handlers)[portId := result.registration] && acknowledged == old(acknowledged) + {portId}
      ensures !result.Registered? ==> handlers == old(handlers) && acknowledged == old(acknowledged)
      ensures disconnected == old(disconnected) + (if result.Disconnected? then {portId} else {})
      ensures Valid()
    {
      var payload := SetRefererPayload(port.name);
      if payload.None? {
        return Ignored;
      }
      if port.sender.frameId.None? {
        disconnected := disconnected + {portId};
        return Disconnected;
      }
      var parsed := JsonParse(payload.value, parse);
      if parsed.Failure? {
        return Faulted(parsed.error);
      }
      result := RegisterFrom(parsed.value, port.sender);
      if result.Registered? {
        handlers := handlers[portId := result.registration];
        acknowledged := acknowledged + {portId};
      }
    }

    /** The port's `onDisconnect` listener: removes the port's listener. */
    method OnPortDisconnect(portId: nat)
      requires Valid()
      modifies this
      ensures handlers == old(handlers) - {portId}
      ensures acknowledged == old(acknowledged) && disconnected == old(disconnected)
      ensures Valid()
    {
      handlers := handlers - {portId};
    }

    /** A request delivered to the listener registered for a port. */
    method Deliver(portId: nat, request: RequestDetails, headers: HeaderList) returns (r: Option<HeaderList>)
      requires portId in handlers && InFilter(handlers[portId], request)
      modifies headers
      ensures var out := PreservedHeaders(handlers[portId].frameId, handlers[portId].referer, request, old(headers.items));
        (out.Some? ==> r == Some(headers) && headers.items == out.value)
        && (out.None? ==> r == None && headers.items == old(headers.items))
    {
      var reg := handlers[portId];
      r := OnBeforeSendHeaders(reg.frameId, reg.referer, request, headers);
    }
  }
}
