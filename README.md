# PDF interception of the pdf.js browser extensions

This project models, in Dafny, the part of the pdf.js Chrome/Chromium extensions that decides what happens to a PDF the browser is about to load:

- **Chromium background page.** It looks at a response's headers and decides among four outcomes:
  - let it through;
  - force a download by rewriting `Content-Disposition` to `attachment`;
  - redirect the frame to the built-in viewer;
  - fall back to navigating the tab or suppressing the frame.
- **Request-header cache.** The background page keeps the request headers of every page request in a cache.
- **Referer-sticking session.** It arms a session that adds the page's `Referer` to the viewer's own re-fetch of the PDF. The session tears itself down on tab removal, on navigation, or on a foreign referer. It is meant to switch to tearing down when the viewer's port disconnects; as written the viewer's handshake is never accepted, so that switch never happens (second Findings row).
- **Port-driven referer preservation.** The viewer opens a `set-referer…` port, and the background is meant to add the given referer to the viewer's requests until the port closes. As written every such port with a frame id throws a `SyntaxError`, so nothing is added (third Findings row).
- **Legacy extension.** It redirects PDFs to an "update" page of its own unless the new viewer is installed.
- **Update page.** It builds a link to the legacy extension's own viewer page from its query string and shows the original PDF URL.

## Modules

Each module is one file:

- `Wrappers`: `Option` and `Result`.
- `Browser`: the fault kinds, extension URLs, ports, and request and navigation details.
- `JsText`: the JavaScript string operations used: ASCII `toLowerCase`, `indexOf`, `trim` with the ES5 white-space set, `split(';', 1)[0]`, `replace(/^[^;]+/, '')`, and the `(.*)` capture.
- `UriCodec`: `encodeURIComponent` and `decodeURIComponent` with full UTF-8, proved to round-trip.
- `Headers`: header lists, the `getHeaderFromHeaders` loop, and the in-place `HeaderList`.
- `PdfDetection`: the viewer URL, the PDF and download tests, and the attachment rewrite.
- `RefererSticking`: the session as a transition function over its registered-listener set, and the `RefererSession` class whose methods follow it.
- `Interception`: the `onHeadersReceived`, FTP and file-URL decisions, and the `PdfHandlerBackground` class holding the header cache.
- `PreserveReferer`: the created `onBeforeSendHeaders` listener, port-name parsing, and the `RefererPreserver` class.
- `LegacyRedirect`: the legacy extension's `pdf_webRequestListener`.
- `UpdateViewerPage`: `getViewerURL` and `getOriginalPDFUrl` of the update page.

## Behaviour worth knowing

- **`isPdfFile` and `.pdf` in the URL.** A generic `application/octet-stream` response counts as a PDF only when the *first* `.pdf` in the lower-cased URL is past index 0 (`indexOf('.pdf') > 0` at extensions/chromium/pdfHandler.js:74). A later `.pdf` does not help: `.pdf/a.pdf` is rejected (`PdfDetection.OctetStreamFirstOccurrenceExample`).
- **Missing `Content-Disposition` header.** The comment at extensions/chromium/pdfHandler.js:78-79 promises `Content-Disposition: attachment`. The code appends a header without a value and then calls `.replace` on that missing value, which throws. The listener (`Interception.HeadersReceived`, `Interception.PdfHandlerBackground.OnHeadersReceived`) and the in-place rewrite (`PdfDetection.GetHeadersWithContentDispositionAttachment`) model this throw as written. The intended rewrite, `PdfDetection.WithAttachmentDisposition`, is proved separately (first Findings row).
- **Tab-removed listener after the handshake.** The handshake re-adds the tab-removed listener (`addListener` at extensions/chromium/pdfHandler.js:158) instead of removing it, so the tab-removed trigger stays armed after the handshake (`RefererSticking.HandshakeKeepsTabRemoved`). The model assumes that adding an already registered listener leaves it registered once. The code does not establish this; it depends on the browser's event bindings. "## Left out" says what changes if the listener is registered twice.
- **As written or corrected.** Where a Findings row applies, the as-written and the corrected behaviour are both defined. The Chromium response listener and the legacy listener's as-written form follow the code. The referer session's handshake (`RefererSticking.Next`) and the `set-referer` port handler (`PreserveReferer.RefererPreserver.OnConnect`) use the corrected form; "## Left out" says what that leaves unmodelled.

## Model

| member | source | states |
|---|---|---|
| JsText.IndexOf | extensions/chromium/pdfHandler.js:74 | `indexOf` is -1 exactly when the needle occurs nowhere; otherwise it is an occurrence with no earlier one |
| JsText.Trim | extensions/chromium/pdfHandler.js:71 | `trim` yields a slice of the input that neither starts nor ends with white space, and everything cut off either side is white space |
| JsText.BeforeFirst | extensions/chromium/pdfHandler.js:71 | `split(sep, 1)[0]` is a prefix free of `sep`, followed in the input by `sep` unless it is the whole input |
| JsText.FromFirst | extensions/chromium/pdfHandler.js:95 | `replace(/^[^;]+/, '')` leaves the rest after the text before the first `;`; together they rebuild the input, and the rest starts with `;` or is empty |
| JsText.BeforeLineTerminator | extensions/chrome/update-pdf-viewer.js:13 | the `(.*)` capture is the longest prefix without a line terminator |
| JsText.ContainsIffOccurs | extensions/chromium/pdfHandler.js:34 | `indexOf(needle) >= 0` holds iff the needle occurs somewhere, in both directions |
| JsText.Lower | extensions/chromium/pdfHandler.js:55 | ASCII `toLowerCase` (definition; see `LowerIdempotent` and the ASCII line under "## Left out") |
| JsText.LowerIdempotent | extensions/chromium/pdfHandler.js:55 | lower-casing twice changes nothing more |
| UriCodec.Encode | extensions/chromium/pdfHandler.js:25 | `encodeURIComponent`: unreserved characters kept, every other character as the `%XX` escapes of its UTF-8 bytes (definition; properties in the rows below) |
| UriCodec.Decode | extensions/chrome/update-pdf-viewer.js:14 | `decodeURIComponent`: fails with a `URIError` on a malformed escape or invalid UTF-8 (definition; properties in the rows below) |
| UriCodec.DecodeEncode | extensions/chromium/pdfHandler.js:25 | `decodeURIComponent(encodeURIComponent(s)) == s` for every string |
| UriCodec.EncodeAlphabet | extensions/chromium/pdfHandler.js:25 | the encoded text holds only unreserved characters and `%`, so no `#`, `&` or `?` |
| UriCodec.EncodeAppend | extensions/chromium/pdfHandler.js:25 | encoding distributes over concatenation |
| UriCodec.DecodeWithoutEscapes | extensions/chrome/update-pdf-viewer.js:14 | text without `%` decodes to itself |
| Headers.Lookup | extensions/chromium/pdfHandler.js:52-59 | the found header is the lowest-index one whose lower-cased name is the query; nothing is found exactly when no name matches |
| Headers.GetHeaderFromHeaders | extensions/chromium/pdfHandler.js:52-59 | the scanning loop with early return finds exactly the header `Lookup` specifies |
| Headers.LookupUpperCaseQuery | extensions/chromium/pdfHandler.js:55 | a query with an upper-case letter finds nothing in any list, since only names are lower-cased |
| Headers.LookupIgnoresNameCase | extensions/chromium/pdfHandler.js:55 | renaming a header to a different-case spelling changes no lookup |
| Headers.LookupAfterSetValue | extensions/chromium/pdfHandler.js:95 | assigning a header's value changes no lookup |
| Headers.LookupAfterPush | extensions/chromium/pdfHandler.js:92 | appending a header changes a lookup only when nothing matched before, and then finds the new header iff its name matches |
| Headers.HeaderList.Push | extensions/chromium/pdfHandler.js:92 | `push` appends one header and keeps the rest |
| Headers.HeaderList.SetValue | extensions/chromium/pdfHandler.js:95 | assigning `value` changes exactly that header's value |
| PdfDetection.ViewerBase | extensions/chromium/pdfHandler.js:22 | `VIEWER_URL`, the Chromium extension's viewer page (definition) |
| PdfDetection.ViewerUrl | extensions/chromium/pdfHandler.js:24-26 | `getViewerURL` (definition; see `ViewerUrlRoundTrip`) |
| PdfDetection.ViewerUrlRoundTrip | extensions/chromium/pdfHandler.js:24-26 | the viewer URL is the viewer base, `?file=`, then text without `#` or `&` that decodes back to the PDF URL |
| PdfDetection.IsAttachment | extensions/chromium/pdfHandler.js:44 | `/^attachment/i.test(value)`, false for a missing value (definition; see `AttachmentUnchangedExample`, `DownloadableCases`) |
| PdfDetection.IsPdfDownloadable | extensions/chromium/pdfHandler.js:33-45 | `isPdfDownloadable` as written (definition; see `DownloadableCases`) |
| PdfDetection.DownloadableCases | extensions/chromium/pdfHandler.js:33-45 | the marker makes a download; otherwise a main frame never does; otherwise it is a download iff the first content-disposition header starts with `attachment` in any case |
| PdfDetection.DownloadableWithoutHeaders | extensions/chromium/pdfHandler.js:42-44 | without response headers only the marker makes a download |
| PdfDetection.MediaType | extensions/chromium/pdfHandler.js:71 | the media type: lower-cased, cut at the first `;`, trimmed (definition; see `PdfMediaTypeExample`) |
| PdfDetection.IsPdfFile | extensions/chromium/pdfHandler.js:68-76 | `isPdfFile` as written, including the throw on a valueless content-type header (definition; see `IsPdfFileCases`) |
| PdfDetection.IsPdfFileCases | extensions/chromium/pdfHandler.js:68-76 | throws iff the first content-type header has no value; true iff its media type is `application/pdf`, or is `application/octet-stream` with `.pdf` past index 0 and not at 0 in the lower-cased URL; false without a content-type header |
| PdfDetection.IsPdfFileIgnoresUrlCase | extensions/chromium/pdfHandler.js:74 | the URL test ignores ASCII case |
| PdfDetection.PdfMediaTypeExample | extensions/chromium/pdfHandler.js:71 | ` Application/PDF ; charset=binary` has media type `application/pdf` |
| PdfDetection.OctetStreamFirstOccurrenceExample | extensions/chromium/pdfHandler.js:72-74 | a URL whose first `.pdf` is at index 0 is rejected even with a later `.pdf` |
| PdfDetection.OctetStreamAnywhereExample | extensions/chromium/pdfHandler.js:72-74 | `.pdf` in the middle of a URL suffices; it need not be a suffix |
| PdfDetection.WithAttachmentDispositionAsWritten | extensions/chromium/pdfHandler.js:87-98 | the rewrite as written, which throws without a valued header (definition; see `AsWrittenFailsIff`) |
| PdfDetection.WithAttachmentDisposition | extensions/chromium/pdfHandler.js:78-98 | the corrected rewrite the comment at lines 78-79 promises (definition; see `AttachmentRewriteSpec`) |
| PdfDetection.AsWrittenFailsIff | extensions/chromium/pdfHandler.js:90-95 | the code as written throws a `TypeError` iff the first content-disposition header is missing or has no value |
| PdfDetection.MissingDispositionAsWritten | extensions/chromium/pdfHandler.js:87-98 | without a content-disposition header the code as written throws, while the intended rewrite appends `Content-Disposition: attachment` |
| PdfDetection.AsWrittenAgreesWithValue | extensions/chromium/pdfHandler.js:87-98 | when the first content-disposition header has a value, the code as written and the intended rewrite agree |
| PdfDetection.AttachmentRewriteSpec | extensions/chromium/pdfHandler.js:87-98 | an attachment header is left alone and nothing is returned; otherwise that header (appended if missing) becomes `attachment` plus its text from the first `;`, and every other header is kept |
| PdfDetection.AttachmentRewriteEstablishes | extensions/chromium/pdfHandler.js:78-79 | after the rewrite the first content-disposition header is an attachment |
| PdfDetection.AttachmentRewriteIdempotent | extensions/chromium/pdfHandler.js:94-97 | a second rewrite changes nothing and reports no change |
| PdfDetection.InlineRewriteExample | extensions/chromium/pdfHandler.js:95 | `inline; filename=x.pdf` becomes `attachment; filename=x.pdf` |
| PdfDetection.AttachmentUnchangedExample | extensions/chromium/pdfHandler.js:94 | `Attachment` in any case is left unchanged |
| PdfDetection.GetHeadersWithContentDispositionAttachment | extensions/chromium/pdfHandler.js:87-98 | as written: where the rewrite succeeds, the list is changed in place as it specifies and returned iff changed; where it throws, the list keeps the pushed valueless header |
| RefererSticking.StickSession | extensions/chromium/pdfHandler.js:124-134 | a session is armed iff the request's headers are cached and their first referer header has a non-empty value; the session carries that value, tab, frame and URL |
| RefererSticking.HandshakeAcceptedAsWritten | extensions/chromium/pdfHandler.js:146-152 | the handshake test as written, reading the absent `sender.tabId` (definition; see `ViewerHandshakeRejectedAsWritten`) |
| RefererSticking.HandshakeAccepted | extensions/chromium/pdfHandler.js:146-152 | the corrected handshake test, reading `sender.tab` (definition) |
| RefererSticking.ViewerHandshakeRejectedAsWritten | extensions/chromium/pdfHandler.js:145-152 | the viewer's own port passes the intended handshake test but no port passes the test as written |
| RefererSticking.ForeignReferer | extensions/chromium/pdfHandler.js:183-184 | a referer value that is non-empty and not a `chrome-extension:` URL (definition; see `ForeignRefererTearsDown`) |
| RefererSticking.Unstick | extensions/chromium/pdfHandler.js:194-199 | `unstickHandlers` on the listener set (definition; see `TeardownRemovesAll`) |
| RefererSticking.InjectReferer | extensions/chromium/pdfHandler.js:178-191 | the injection rule for a request of the session's frame (definition; see `InjectionSpec`) |
| RefererSticking.Next | extensions/chromium/pdfHandler.js:145-199 | the session's reaction to one event, delivered only to a registered listener, with the corrected handshake (definition; see the lemmas below) |
| RefererSticking.NextPreservesReachable | extensions/chromium/pdfHandler.js:136-199 | every event keeps the listener set among armed, handshaken, port-only and empty |
| RefererSticking.InjectionSpec | extensions/chromium/pdfHandler.js:174-192 | headers are returned only for an in-scope request of the session's frame while the rule is registered; without a referer header exactly one `Referer` header carrying the session's referer is appended; otherwise the first referer header, which is not foreign, keeps its name and takes the session's referer, and every other header, later referer headers included, is kept in place |
| RefererSticking.ForeignRefererTearsDown | extensions/chromium/pdfHandler.js:183-189 | a non-empty non-extension referer returns nothing and removes all four listeners; an empty or extension referer is overwritten |
| RefererSticking.OtherFrameUntouched | extensions/chromium/pdfHandler.js:175-177 | a request of another frame is not changed and changes nothing |
| RefererSticking.TeardownRemovesAll | extensions/chromium/pdfHandler.js:194-199 | when the injection rule goes, all four listeners go, and tearing down again changes nothing |
| RefererSticking.TeardownTriggers | extensions/chromium/pdfHandler.js:161-173 | tab removal tears down before and after the handshake; navigation in the frame or frame 0 only before it; port disconnect after it |
| RefererSticking.HandshakeKeepsTabRemoved | extensions/chromium/pdfHandler.js:154-159 | the handshake removes the connect and navigation listeners and adds the disconnect trigger, while the tab-removed listener stays |
| RefererSticking.TornDownStaysQuiet | extensions/chromium/pdfHandler.js:194-199 | after teardown no later event returns headers or re-arms injection |
| RefererSticking.TraceReachable | extensions/chromium/pdfHandler.js:136-199 | over any event sequence the listener set stays reachable |
| RefererSticking.StickyExample | extensions/chromium/pdfHandler.js:136-192 | a tab 7 frame 2 session adds the referer for frame 2, ignores frame 3, and after tab 7 closes ignores frame 2 |
| RefererSticking.RefererSession.constructor | extensions/chromium/pdfHandler.js:136-143 | arming registers exactly the four listeners |
| RefererSticking.RefererSession.UnstickHandlers | extensions/chromium/pdfHandler.js:194-199 | removes the four listeners and nothing else |
| RefererSticking.RefererSession.OnConnect | extensions/chromium/pdfHandler.js:145-160 | the listener set after a port connects is the one `Next` specifies |
| RefererSticking.RefererSession.OnTabRemoved | extensions/chromium/pdfHandler.js:161-165 | the listener set after a tab removal is the one `Next` specifies |
| RefererSticking.RefererSession.OnBeforeNavigate | extensions/chromium/pdfHandler.js:166-173 | the listener set after a navigation is the one `Next` specifies |
| RefererSticking.RefererSession.OnPortDisconnect | extensions/chromium/pdfHandler.js:154 | the listener set after the viewer port disconnects is the one `Next` specifies |
| RefererSticking.RefererSession.OnBeforeSendHeaders | extensions/chromium/pdfHandler.js:174-192 | the in-place header change, the returned list and the new listener set are those `Next` specifies |
| Interception.ShowInViewer | extensions/chromium/pdfHandler.js:217-270 | the redirect, tab navigation or frame suppression, by capability and frame (definition; see `FallbackCases`) |
| Interception.HeadersReceived | extensions/chromium/pdfHandler.js:203-282 | the `onHeadersReceived` decision as written (definition; see `InterceptionCases`) |
| Interception.InterceptionCases | extensions/chromium/pdfHandler.js:203-215 | only a GET that `isPdfFile` accepts is acted on; the listener throws iff `isPdfFile` throws or a PDF to be downloaded has no valued content-disposition header; the viewer is shown iff the response is a PDF not to be downloaded |
| Interception.ViewerOutcomeCarriesUrl | extensions/chromium/pdfHandler.js:217-234 | every viewer outcome targets a URL whose `file` parameter decodes to the request URL |
| Interception.DownloadForcesAttachment | extensions/chromium/pdfHandler.js:212-215 | a PDF to be downloaded is never shown in the viewer: it passes with an attachment disposition already present, or leaves with one rewritten, or, when the first content-disposition header is missing or valueless, the listener throws a `TypeError` |
| Interception.FallbackCases | extensions/chromium/pdfHandler.js:229-270 | without redirect support, frame 0 navigates its tab to the viewer; a sub-frame gets exactly the two suppression headers and a watch on its tab, frame and fragment-less URL |
| Interception.MainFrameRedirect | extensions/chromium/pdfHandler.js:223-224 | a main-frame PDF GET without the marker is redirected to the viewer URL when redirects are supported |
| Interception.PlainPdfRedirect | extensions/chromium/pdfHandler.js:203-224 | `http://ex.com/doc.pdf` as `application/pdf` redirects to the viewer with `http%3A%2F%2Fex.com%2Fdoc.pdf` |
| Interception.MarkerAndPostSkipViewer | extensions/chromium/pdfHandler.js:205-215 | a marked PDF is not shown in the viewer, and a POST passes |
| Interception.BeforeRequest | extensions/chromium/pdfHandler.js:305-317 | the decision for FTP and file URLs (definition; see `BeforeRequestCases`) |
| Interception.BeforeRequestCases | extensions/chromium/pdfHandler.js:305-317 | a request without response headers passes iff it carries the marker; otherwise it is redirected to a viewer URL that decodes to it |
| Interception.CacheIsolation | extensions/chromium/pdfHandler.js:108-116 | storing or forgetting one request's headers never changes whether another request arms a session |
| Interception.CacheLifecycle | extensions/chromium/pdfHandler.js:108-134 | a forgotten request arms nothing; a just-stored one arms a session from the stored headers alone |
| Interception.PdfHandlerBackground.constructor | extensions/chromium/pdfHandler.js:102 | the cache starts empty and the FTP listener registered |
| Interception.PdfHandlerBackground.OnSendHeaders | extensions/chromium/pdfHandler.js:108-110 | stores the request's headers under its id and changes nothing else |
| Interception.PdfHandlerBackground.ForgetHeaders | extensions/chromium/pdfHandler.js:111-116 | removes exactly the request's entry |
| Interception.PdfHandlerBackground.StickRefererToResource | extensions/chromium/pdfHandler.js:124-143 | returns a fresh armed session exactly when `StickSession` gives one, carrying that session |
| Interception.PdfHandlerBackground.OnHeadersReceived | extensions/chromium/pdfHandler.js:203-282 | returns the decision `HeadersReceived` specifies; changes the list in place only for the attachment result, or by the valueless header pushed before the throw; arms a session on exactly the viewer paths where the cache allows |
| Interception.PdfHandlerBackground.OnBeforeRequestForFtp | extensions/chromium/pdfHandler.js:284-303 | without FTP support it passes and unregisters itself; otherwise it decides as for local files |
| PreserveReferer.PreservedHeaders | extensions/chromium/preserve-http-referer.js:43-57 | the created listener applied to a request (definition; see `PreservedHeadersSpec`) |
| PreserveReferer.PreservedHeadersSpec | extensions/chromium/preserve-http-referer.js:43-57 | answers exactly the requests of its frame; without a referer header exactly one `Referer` header carrying the referer is appended; otherwise the first referer header keeps its name and takes the referer, and every other header, later referer headers included, is kept in place |
| PreserveReferer.PreservedHeadersIdempotent | extensions/chromium/preserve-http-referer.js:48-55 | applying the listener to its own answer changes nothing |
| PreserveReferer.AgreesWithStickySession | extensions/chromium/preserve-http-referer.js:48-55 | where the session does not tear down, the unconditional overwrite agrees with the session's injection |
| PreserveReferer.OnBeforeSendHeaders | extensions/chromium/preserve-http-referer.js:44-56 | changes the list in place as `PreservedHeaders` specifies and returns it, or returns nothing for other frames |
| PreserveReferer.SetRefererPayload | extensions/chromium/preserve-http-referer.js:61-64 | the capture of `/^set-referer(.+)$/` (definition; see `SetRefererPayloadRoundTrip`) |
| PreserveReferer.SetRefererPayloadRoundTrip | extensions/chromium/preserve-http-referer.js:61-64 | `set-referer` plus non-empty single-line text captures that text; any capture rebuilds the name |
| PreserveReferer.SkipJsonSpace | extensions/chromium/preserve-http-referer.js:70 | the rest after the leading JSON white space, which starts with a non-space |
| PreserveReferer.RegisterFrom | extensions/chromium/preserve-http-referer.js:70-88 | reading `url` and `referer`, then `port.sender.tab.id`, then adding the listener: `null` or a tab-less sender throw a `TypeError`; a value without a string `url` makes the browser refuse `urls: [url]` (definition; see `ConnectGuards`) |
| PreserveReferer.ConnectDecisionAsWritten | extensions/chromium/preserve-http-referer.js:60-89 | the handler as written, parsing the match array (definition; see `ConnectAsWrittenNeverRegisters`) |
| PreserveReferer.ConnectDecision | extensions/chromium/preserve-http-referer.js:60-89 | the handler corrected to parse the capture (definition; see `ConnectRegistersViewer`, `ConnectGuards`) |
| PreserveReferer.ConnectAsWrittenNeverRegisters | extensions/chromium/preserve-http-referer.js:70 | as written a matching port is ignored, disconnected or fails with a `SyntaxError`, and is never registered |
| PreserveReferer.ConnectRegistersViewer | extensions/chromium/preserve-http-referer.js:60-89 | a `set-referer` port with a JSON object holding a string `url`, from a frame of a tab, registers that URL and the object's referer for that tab and frame |
| PreserveReferer.ConnectGuards | extensions/chromium/preserve-http-referer.js:61-88 | other names are ignored; a sender without frame id is disconnected; a registration is for the sender's tab and frame; a parsed non-null value from a tab is registered iff it is an object with a string `url` |
| PreserveReferer.RefererPreserver.constructor | extensions/chromium/preserve-http-referer.js:34 | nothing registered, acknowledged or disconnected |
| PreserveReferer.RefererPreserver.OnConnect | extensions/chromium/preserve-http-referer.js:60-89 | the decision is `ConnectDecision`; a listener is registered and the port acknowledged only on registration; only a frame-less sender is disconnected |
| PreserveReferer.RefererPreserver.OnPortDisconnect | extensions/chromium/preserve-http-referer.js:77-80 | removes exactly the port's listener |
| PreserveReferer.RefererPreserver.Deliver | extensions/chromium/preserve-http-referer.js:81-85 | a request in a listener's filter is answered as that listener's frame and referer specify |
| LegacyRedirect.IsPdfDownloadable | extensions/chrome/pdfHandler.js:22-24 | the legacy `isPdfDownloadable`: the URL carries the download marker (definition; see `ListenerCases`) |
| LegacyRedirect.UpdatePage | extensions/chrome/pdfHandler.js:36-37 | the legacy extension's own update page (definition; see `UpdatePageHasNoQuery`) |
| LegacyRedirect.WebRequestListenerAsWritten | extensions/chrome/pdfHandler.js:26-40 | the listener as written, throwing on the upgrade path (definition; see `DeactivationAsWritten`) |
| LegacyRedirect.WebRequestListener | extensions/chrome/pdfHandler.js:26-40 | the listener calling the defined deactivation hook (definition; see `ListenerCases`) |
| LegacyRedirect.ListenerCases | extensions/chrome/pdfHandler.js:26-40 | a marked URL passes regardless of the probe; otherwise the listener deactivates iff upgraded and redirects iff not, to the extension's own update page with `?file=` and the encoded URL |
| LegacyRedirect.DeactivationAsWritten | extensions/chrome/pdfHandler.js:30-34 | as written the upgrade path throws a `ReferenceError`; elsewhere the as-written and intended listeners agree |
| LegacyRedirect.RedirectLandsOnViewerLink | extensions/chrome/pdfHandler.js:36-39 | the update page reached by the redirect links to the legacy extension's own viewer page with the same `?file=` query, and shows the URL decoded from it, which is the request's URL |
| UpdateViewerPage.GetViewerUrl | extensions/chrome/update-pdf-viewer.js:6-10 | `getViewerURL`: the extension's own viewer page, then the query string and fragment verbatim (definition; see `ViewerLinkOfFilePage`) |
| UpdateViewerPage.GetOriginalPdfUrl | extensions/chrome/update-pdf-viewer.js:12-15 | `getOriginalPDFUrl` (definition; see the three lemmas below) |
| UpdateViewerPage.GetOriginalPdfUrlRoundTrip | extensions/chrome/update-pdf-viewer.js:12-15 | `?file=` followed by an encoded URL gives that URL back |
| UpdateViewerPage.GetOriginalPdfUrlKeepsParameters | extensions/chrome/update-pdf-viewer.js:13-14 | everything after `?file=` is the URL, `&` and `=` included |
| UpdateViewerPage.GetOriginalPdfUrlOtherCases | extensions/chrome/update-pdf-viewer.js:12-15 | a query not starting `?file=` gives `unknown.pdf`; a malformed escape throws a `URIError` |
| UpdateViewerPage.LocationOf | extensions/chrome/update-pdf-viewer.js:6-10 | for a URL without a fragment, the query string is forwarded whole and the fragment is empty |
| UpdateViewerPage.ViewerLinkOf | extensions/chrome/update-pdf-viewer.js:16-21 | the link the page shows when it has a query string (definition; see `ViewerLinkOfFilePage`) |
| UpdateViewerPage.ViewerLinkOfFilePage | extensions/chrome/update-pdf-viewer.js:16-21 | a page with `?file=` and an encoded URL links to its extension's viewer page with the same query string and shows the URL |

## Left out

- Browser services are reduced to values:
  - `chrome.extension.getURL` is `ExtensionUrl(extensionId, path)`. The Chromium extension's pages use its published id. The legacy extension's pages use an id given as a parameter, since the browser assigns it and it appears nowhere in that extension's source;
  - `chrome.tabs.update` is the `CancelAndNavigateTab` outcome;
  - `Features` are input flags;
  - `checkIfUpgradedSync()` is an input flag;
  - the deactivation hook is the `DeactivateAndPass` outcome.
- Match patterns (`<all_urls>`, `ftp://*/*.pdf`, the `urls: [pdfUrl]` filters) are stated as preconditions or guards. The URL pattern of a listener is taken as the one URL it names (`RefererSticking.InScope`, `PreserveReferer.InFilter`).
- Listener dispatch is modelled for one listener per event. The browser's merging of several blocking responses is not modelled.
- `JSON.parse` is modelled only up to the first character of the value. A function parameter stands for the rest of the grammar (`PreserveReferer.JsonParse`).
- The sub-frame fallback's asynchronous chain (extensions/chromium/pdfHandler.js:238-258) is left out: `executeScriptInFrame`, `tabs.create` and the self-removal of the navigation-error listener. The model records only the registered watch and the returned headers.
- extensions/chrome/background-migrate.js is not part of this model. It holds probes of another extension, timers and tab migration.
- The DOM writes and background-page calls of extensions/chrome/update-pdf-viewer.js:16-27 are left out, and so is `console.warn`. The page is modelled as the link it would show (`UpdateViewerPage.ViewerLinkOf`).
- `port.postMessage()`, the acknowledgement, is recorded as the set of acknowledged ports rather than sent.
- Lower-casing is ASCII-only. JavaScript's `toLowerCase` also lower-cases non-ASCII letters, and two of them become ASCII: U+212A KELVIN SIGN becomes `k`, and U+0130 becomes `i` followed by U+0307. The compared strings (`content-type`, `content-disposition`, `referer`, `application/pdf`, `application/octet-stream`) hold no `k`, and an `i` from U+0130 always carries the extra U+0307, so no comparison changes. For the URL test, U+0130 lengthens the lower-cased URL and shifts the index of `.pdf`. But `.pdf` holds no `i` or `k`, so it occurs, and occurs at index 0, in one lower-cased form exactly when it does in the other. `indexOf('.pdf') > 0` therefore has the same truth value; only the index differs.
- Strings are sequences of Unicode scalar values. The lone surrogates that make `encodeURIComponent` throw cannot occur.
- RefererSticking.Next: it models the corrected handshake of the second Findings row (`HandshakeAccepted`). As written no port passes (`ViewerHandshakeRejectedAsWritten`). A connect event then never changes the listener set, the handshaken set and the port-disconnect trigger are never reached, and a session ends only by tab removal, navigation or a foreign referer. The lemmas about the handshaken state (`HandshakeKeepsTabRemoved`, parts of `TeardownTriggers`) are about the corrected handshake.
- RefererSticking.TeardownRemovesAll: it rests on idempotent listener registration. If the browser registered the tab-removed listener a second time at extensions/chromium/pdfHandler.js:158, a teardown after the handshake by a port disconnect or a foreign referer would leave one `onTabRemoved` registered. That leftover would only call `unstickHandlers` again on the tab's removal, removing itself and changing no header.
- RefererSticking.TeardownTriggers: its port-disconnect clause (`HandshakenListeners` to the empty set) rests on the same assumption; with a doubled registration one tab-removed listener would be left. Its handshaken clauses are also about the corrected handshake (line `RefererSticking.Next`).
- RefererSticking.RefererSession.OnConnect: it follows `Next`, so it too accepts the viewer by `sender.tab` where the code as written accepts no port.
- PreserveReferer.RefererPreserver.OnConnect: it decides by `ConnectDecision`, the corrected parse of the third Findings row. As written (`ConnectDecisionAsWritten`), every `set-referer` port with a frame id throws a `SyntaxError`. No listener is then registered, no port is acknowledged, and `Deliver` is never reached. A `url` string that is not a valid match pattern is registered by the model, though the browser refuses it as it refuses a missing one, since match-pattern syntax is not modelled.
- Header values are `Option<string>`. `None` stands for the `undefined` value of a header the code appends without one.

## Findings

| source | as written | input that shows it | evidently intended | confidence | as-written member | corrected member |
|---|---|---|---|---|---|---|
| extensions/chromium/pdfHandler.js:90-95 | A missing `Content-Disposition` header is appended without a value, and `cdHeader.value.replace` then throws a `TypeError` | any GET of a PDF whose URL carries `pdfjs.action=download` and whose response has no content-disposition header | append `Content-Disposition: attachment`, as the comment at lines 78-79 says | not executed; high | PdfDetection.MissingDispositionAsWritten | PdfDetection.AttachmentRewriteSpec |
| extensions/chromium/pdfHandler.js:150 | The handshake compares `port.sender.tabId`, a property a message sender does not have, so the viewer's port is always rejected | the viewer's `chromecom-is-alive` port from the session's tab and frame | compare `port.sender.tab.id` with the session's tab | not executed; medium (depends on the browser's `MessageSender` shape) | RefererSticking.ViewerHandshakeRejectedAsWritten | RefererSticking.HandshakeKeepsTabRemoved |
| extensions/chromium/preserve-http-referer.js:70 | `JSON.parse(refererData)` parses the match array, whose text starts with `set-referer`, so every matching port with a frame id throws a `SyntaxError` | port name `set-referer{"url":"http://a/x.pdf","referer":"http://a/"}` with a frame id | parse the captured group, `refererData[1]` | not executed; high | PreserveReferer.ConnectAsWrittenNeverRegisters | PreserveReferer.ConnectRegistersViewer |
| extensions/chrome/pdfHandler.js:32 | Calls `deactivate_extension`, which is not defined anywhere (the background page defines `deactive_extension`), so the upgrade path throws a `ReferenceError` | any PDF request once the probe reports the upgrade | call the defined deactivation hook and return nothing | not executed; high | LegacyRedirect.DeactivationAsWritten | LegacyRedirect.ListenerCases |
