/** The parts of the browser and of the JavaScript runtime that the extension
    talks to, reduced to values. */
module Browser {
  import opened Wrappers

  /** The JavaScript exceptions the modelled code can throw. A listener that
      throws gives the browser no blocking response, so the request goes on
      unmodified. `ArgumentError` is the `Error` an extension API call throws
      when the browser rejects its arguments. */
  datatype Fault = TypeError | SyntaxError | UriError | ReferenceError | ArgumentError

  /** An extension identifier as the browser assigns it: 32 letters from
      `a` to `p`. */
  predicate IsExtensionId(id: string) {
    |id| == 32 && forall i :: 0 <= i < |id| ==> 'a' <= id[i] <= 'p'
  }

  /** The identifier of the published Chromium extension, the one whose
      resources the legacy extension probes for. */
  const ChromiumExtensionId: string := "oemmndcbldboiebfnladdacbdfmadadm"

  /** `chrome.extension.getURL(path)` called from the extension `extensionId`:
      the URL of one of that extension's own resources. */
  function ExtensionUrl(extensionId: string, path: string): string {
    "chrome-extension://" + extensionId + "/" + path
  }

  /** An extension URL holds a query or fragment delimiter only if its path
      does. */
  lemma ExtensionUrlAvoids(extensionId: string, path: string, c: char)
    requires IsExtensionId(extensionId)
    requires c == '?' || c == '#'
    requires c !in path
    ensures c !in ExtensionUrl(extensionId, path)
  {
    var scheme := "chrome-extension://";
    assert c !in scheme;
    assert forall i :: 0 <= i < |extensionId| ==> extensionId[i] != c;
    assert ExtensionUrl(extensionId, path) == scheme + extensionId + "/" + path;
  }

  /** The `tab` property of a message sender. */
  datatype Tab = Tab(id: int)

  /** `port.sender`: `tab` is absent for senders outside a tab, `frameId` for
      browsers older than Chrome 41. */
  datatype Sender = Sender(tab: Option<Tab>, frameId: Option<int>)

  /** A `runtime.Port` as seen by an `onConnect` listener. */
  datatype Port = Port(name: string, sender: Sender)

  /** The fields of a `webRequest` event's details that the listeners read. */
  datatype RequestDetails = RequestDetails(
    requestId: string,
    url: string,
    httpMethod: string,
    resourceType: string,
    tabId: int,
    frameId: int)

  /** `webNavigation.onBeforeNavigate` details. */
  datatype Navigation = Navigation(tabId: int, frameId: int)
}
