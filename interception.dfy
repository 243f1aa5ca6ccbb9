/** The request listeners of the Chromium background page: the cache of
    request headers, the decision taken when the response headers of a page
    or frame arrive, and the decisions for FTP and local files, whose
    requests carry no response headers. */
module Interception {
  import opened Wrappers
  import opened JsText
  import opened UriCodec
  import opened Browser
  import opened Headers
  import opened PdfDetection
  import opened RefererSticking

  /** The browser capabilities the background page detected at start-up
      (`Features`). */
  datatype Features = Features(webRequestRedirectUrl: bool, extensionSupportsFTP: bool)

  /** The `webNavigation.onErrorOccurred` listener the sub-frame fallback
      registers: the frame it waits for, the URL filter (`urlEquals`) and the
      viewer URL it then loads into the frame. */
  datatype FrameWatch = FrameWatch(tabId: int, frameId: int, urlEquals: string, viewerUrl: string)

  /** What a listener does with a request. */
  datatype Outcome =
    | Pass                                       // returns nothing
    | ModifiedHeaders(responseHeaders: seq<Header>)   // `{responseHeaders: ...}`
    | RedirectTo(url: string)                    // `{redirectUrl: ...}`
    | CancelAndNavigateTab(tabId: int, url: string)   // `tabs.update` and `{cancel: true}`
    | SuppressFrame(responseHeaders: seq<Header>, watch: FrameWatch)
    | Thrown(fault: Fault)                       // the listener throws

  /** The outcomes that show the PDF in the viewer. */
  predicate IsViewerOutcome(o: Outcome) {
    o.RedirectTo? || o.CancelAndNavigateTab? || o.SuppressFrame?
  }

  /** The viewer URL a viewer outcome loads. */
  function ViewerTarget(o: Outcome): string
    requires IsViewerOutcome(o)
  {
    match o
    case RedirectTo(url) => url
    case CancelAndNavigateTab(_, url) => url
    case SuppressFrame(_, watch) => watch.viewerUrl
  }

  /** The headers that keep a sub-frame from rendering the PDF while it can
      still be navigated. */
  const SuppressionHeaders: seq<Header> :=
    [Header("X-Content-Type-Options", Some("nosniff")), Header("X-Frame-Options", Some("deny"))]

  /** The redirect to the viewer, by whichever means the browser supports. */
  function ShowInViewer(d: RequestDetails, features: Features): Outcome {
    var viewerUrl := ViewerUrl(d.url);
    if features.webRequestRedirectUrl then RedirectTo(viewerUrl)
    else if d.frameId == 0 then CancelAndNavigateTab(d.tabId, viewerUrl)
    else SuppressFrame(SuppressionHeaders, FrameWatch(d.tabId, d.frameId, BeforeFirst(d.url, '#'), viewerUrl))
  }

  /** The `onHeadersReceived` listener's decision. A download goes through
      the attachment rewrite as written, whose throw ends the listener. */
  function HeadersReceived(d: RequestDetails, responseHeaders: seq<Header>, features: Features): Outcome {
    if d.httpMethod != "GET" then Pass
    else match IsPdfFile(d.url, responseHeaders)
      case Failure(f) => Thrown(f)
      case Success(isPdf) =>
        if !isPdf then Pass
        else if IsPdfDownloadable(d.url, d.resourceType, Some(responseHeaders)) then
          match WithAttachmentDispositionAsWritten(responseHeaders)
          case Failure(f) => Thrown(f)
          case Success(rewrite) => if rewrite.modified then ModifiedHeaders(rewrite.headers) else Pass
        else ShowInViewer(d, features)
  }

  /** Only a GET response that `isPdfFile` accepts is ever acted on, and it
      goes to the viewer exactly when it is not to be downloaded. The listener
      throws exactly when `isPdfFile` throws, or when a PDF to be downloaded
      has no valued content-disposition header for the rewrite to read. */
  lemma InterceptionCases(d: RequestDetails, responseHeaders: seq<Header>, features: Features)
    ensures var o := HeadersReceived(d, responseHeaders, features);
      (o.Pass? || o.Thrown?) || (d.httpMethod == "GET" && IsPdfFile(d.url, responseHeaders) == Success(true))
    ensures var o := HeadersReceived(d, responseHeaders, features);
      o.Thrown? <==> (d.httpMethod == "GET" &&
        (IsPdfFile(d.url, responseHeaders).Failure?
         || (IsPdfFile(d.url, responseHeaders) == Success(true)
             && IsPdfDownloadable(d.url, d.resourceType, Some(responseHeaders))
             && ValueOf(responseHeaders, "content-disposition").GetOr(None).None?)))
    ensures IsViewerOutcome(HeadersReceived(d, responseHeaders, features)) <==>
      (d.httpMethod == "GET" && IsPdfFile(d.url, responseHeaders) == Success(true)
       && !IsPdfDownloadable(d.url, d.resourceType, Some(responseHeaders)))
  {
    AsWrittenFailsIff(responseHeaders);
  }

  /** Whatever means the redirect takes, the viewer is given the PDF's URL:
      its `file` parameter decodes back to the request's URL. */
  lemma ViewerOutcomeCarriesUrl(d: RequestDetails, responseHeaders: seq<Header>, features: Features)
    requires IsViewerOutcome(HeadersReceived(d, responseHeaders, features))
    ensures var target := ViewerTarget(HeadersReceived(d, responseHeaders, features));
      target == ViewerBase() + "?file=" + target[|ViewerBase()| + 6..]
      && Decode(target[|ViewerBase()| + 6..]) == Some(d.url)
  {
    ViewerUrlRoundTrip(d.url);
  }

  /** A PDF to be downloaded is never redirected. Its response headers
      already make it an attachment, or are rewritten to; but when the first
      content-disposition header is missing or has no value, the listener
      throws a `TypeError` and the download is not forced. */
  lemma DownloadForcesAttachment(d: RequestDetails, responseHeaders: seq<Header>, features: Features)
    requires d.httpMethod == "GET" && IsPdfFile(d.url, responseHeaders) == Success(true)
    requires IsPdfDownloadable(d.url, d.resourceType, Some(responseHeaders))
    ensures var o := HeadersReceived(d, responseHeaders, features);
      var before := ValueOf(responseHeaders, "content-disposition").GetOr(None);
      (o.Pass? && IsAttachment(before))
      || (o.ModifiedHeaders? && before.Some?
          && IsAttachment(ValueOf(o.responseHeaders, "content-disposition").GetOr(None)))
      || (o == Thrown(TypeError) && before.None?)
  {
    AsWrittenFailsIff(responseHeaders);
    if ValueOf(responseHeaders, "content-disposition").GetOr(None).Some? {
      AsWrittenAgreesWithValue(responseHeaders);
      AttachmentRewriteEstablishes(responseHeaders);
      AttachmentRewriteSpec(responseHeaders);
    }
  }

  /** Without the redirect capability a main frame is replaced by navigating
      its tab, and a sub-frame gets exactly the two suppression headers and a
      watch on its own frame and on the URL without its fragment. */
  lemma FallbackCases(d: RequestDetails, responseHeaders: seq<Header>, features: Features)
    requires IsViewerOutcome(HeadersReceived(d, responseHeaders, features)) && !features.webRequestRedirectUrl
    ensures var o := HeadersReceived(d, responseHeaders, features);
      (d.frameId == 0 ==> o == CancelAndNavigateTab(d.tabId, ViewerUrl(d.url)))
      && (d.frameId != 0 ==> (o.SuppressFrame? && o.responseHeaders == SuppressionHeaders
          && o.watch.tabId == d.tabId && o.watch.frameId == d.frameId
          && o.watch.urlEquals <= d.url && '#' !in o.watch.urlEquals
          && (|o.watch.urlEquals| < |d.url| ==> d.url[|o.watch.urlEquals|] == '#')))
  {
  }

  /** A GET of a PDF in a main frame, without the download marker, is
      redirected to the viewer when the browser can redirect. */
  lemma MainFrameRedirect(d: RequestDetails, responseHeaders: seq<Header>, features: Features)
    requires d.httpMethod == "GET" && d.resourceType == "main_frame" && !Contains(d.url, DownloadMarker)
    requires IsPdfFile(d.url, responseHeaders) == Success(true) && features.webRequestRedirectUrl
    ensures HeadersReceived(d, responseHeaders, features) == RedirectTo(ViewerUrl(d.url))
  {
  }

  /** A GET of `http://ex.com/doc.pdf` served as `application/pdf` in a main
      frame is redirected to the viewer with the URL percent-encoded. */
  lemma PlainPdfRedirect(d: RequestDetails, hs: seq<Header>)
    requires d == RequestDetails("1", "http://ex.com/doc.pdf", "GET", "main_frame", 5, 0)
    requires hs == [Header("content-type", Some("application/pdf"))]
    ensures HeadersReceived(d, hs, Features(true, true))
      == RedirectTo(ViewerBase() + "?file=" + "http%3A%2F%2Fex.com%2Fdoc.pdf")
  {
    PdfContentType(hs);
    NoMarkerIn(d.url);
    MainFrameRedirect(d, hs, Features(true, true));
    ExampleViewerUrl(d.url, "http%3A%2F%2Fex.com%2Fdoc.pdf");
  }

  lemma PdfContentType(hs: seq<Header>)
    requires hs == [Header("content-type", Some("application/pdf"))]
    ensures forall url :: IsPdfFile(url, hs) == Success(true)
  {
    LowerOfLower("content-type");
    assert NameIs(hs[0], "content-type");
    PdfMediaType();
  }

  lemma PdfMediaType()
    ensures MediaType("application/pdf") == "application/pdf"
  {
    PdfLower();
    PdfBeforeFirst();
    PdfTrim();
  }

  lemma PdfLower()
    ensures Lower("application/pdf") == "application/pdf"
  {
    LowerOfLower("application/pdf");
  }

  lemma PdfTrim()
    ensures Trim("application/pdf") == "application/pdf"
  {
    TrimUnpadded("application/pdf");
  }

  lemma PdfBeforeFirst()
    ensures BeforeFirst("application/pdf", ';') == "application/pdf"
  {
    var v := "application/pdf";
    BeforeFirstIs(v, ';', |v|);
    assert v[..|v|] == v;
  }

  lemma NoMarkerIn(url: string)
    requires url == "http://ex.com/doc.pdf"
    ensures !Contains(url, DownloadMarker)
  {
    assert url[0] != DownloadMarker[0];
    NoOccurrenceSameLength(url, DownloadMarker);
  }

  lemma ExampleViewerUrl(url: string, encoded: string)
    requires url == "http://ex.com/doc.pdf" && encoded == "http%3A%2F%2Fex.com%2Fdoc.pdf"
    ensures ViewerUrl(url) == ViewerBase() + "?file=" + encoded
  {
    ExampleUrlEncoding();
  }

  lemma ExampleUrlEncoding()
    ensures Encode("http://ex.com/doc.pdf") == "http%3A%2F%2Fex.com%2Fdoc.pdf"
  {
    ExampleUrlParts("http://ex.com/doc.pdf", "http%3A%2F%2Fex.com%2Fdoc.pdf");
    EncodeSimpleUrl("http", "ex.com", "doc.pdf");
  }

  lemma ExampleUrlParts(url: string, encoded: string)
    requires url == "http://ex.com/doc.pdf" && encoded == "http%3A%2F%2Fex.com%2Fdoc.pdf"
    ensures url == "http" + (":" + ("/" + ("/" + ("ex.com" + ("/" + "doc.pdf")))))
    ensures encoded == "http" + ("%3A" + ("%2F" + ("%2F" + ("ex.com" + ("%2F" + "doc.pdf")))))
  {
  }

  /** A PDF carrying the download marker is never shown in the viewer, and
      a POST is let through. */
  lemma MarkerAndPostSkipViewer(d: RequestDetails, responseHeaders: seq<Header>, features: Features)
    requires d.httpMethod == "GET" && Contains(d.url, DownloadMarker)
    requires IsPdfFile(d.url, responseHeaders) == Success(true)
    ensures !IsViewerOutcome(HeadersReceived(d, responseHeaders, features))
    ensures HeadersReceived(d.(httpMethod := "POST"), responseHeaders, features) == Pass
  {
  }

  /** The decision for requests that carry no response headers (FTP and
      local files): the download marker lets the request through, anything
      else is redirected to the viewer. */
  function BeforeRequest(d: RequestDetails): Outcome {
    if IsPdfDownloadable(d.url, d.resourceType, None) then Pass else RedirectTo(ViewerUrl(d.url))
  }

  /** The request passes exactly when its URL carries the marker; otherwise
      the viewer gets a URL that decodes back to it. */
  lemma BeforeRequestCases(d: RequestDetails)
    ensures BeforeRequest(d) == Pass <==> Contains(d.url, DownloadMarker)
    ensures BeforeRequest(d) != Pass ==> (BeforeRequest(d) == RedirectTo(ViewerUrl(d.url))
      && Decode(BeforeRequest(d).url[|ViewerBase()| + 6..]) == Some(d.url))
  {
    DownloadableWithoutHeaders(d.url, d.resourceType);
    ViewerUrlRoundTrip(d.url);
  }

  /** A page or frame request (an `http` or `https` URL, main and sub-frames). */
  predicate IsPageRequest(d: RequestDetails) {
    (StartsWith(d.url, "http://") || StartsWith(d.url, "https://"))
    && (d.resourceType == "main_frame" || d.resourceType == "sub_frame")
  }

  /** The `onHeadersReceived` filter: any URL, main and sub-frames. */
  predicate IsFrameRequest(d: RequestDetails) {
    d.resourceType == "main_frame" || d.resourceType == "sub_frame"
  }

  /** The filter of the FTP and file listeners: a URL of the scheme whose
      path ends in `.pdf` or `.PDF`, in main and sub-frames. */
  predicate IsPdfPathRequest(d: RequestDetails, scheme: string) {
    StartsWith(d.url, scheme + "://") && (EndsWith(d.url, ".pdf") || EndsWith(d.url, ".PDF"))
    && IsFrameRequest(d)
  }

  /** Storing a request's headers or forgetting them never changes whether
      another request arms a session. */
  lemma CacheIsolation(cache: map<string, seq<Header>>, requestId: string, headers: seq<Header>,
                       other: string, tabId: int, frameId: int, pdfUrl: string)
    requires other != requestId
    ensures StickSession(cache[requestId := headers], other, tabId, frameId, pdfUrl)
      == StickSession(cache, other, tabId, frameId, pdfUrl)
    ensures StickSession(cache - {requestId}, other, tabId, frameId, pdfUrl)
      == StickSession(cache, other, tabId, frameId, pdfUrl)
  {
  }

  /** A request whose headers were forgotten arms no session; one whose
      headers were just stored arms a session from those headers alone. */
  lemma CacheLifecycle(cache: map<string, seq<Header>>, requestId: string, headers: seq<Header>,
                       tabId: int, frameId: int, pdfUrl: string)
    ensures StickSession(cache - {requestId}, requestId, tabId, frameId, pdfUrl) == None
    ensures StickSession(cache[requestId := headers], requestId, tabId, frameId, pdfUrl)
      == StickSession(map[requestId := headers], requestId, tabId, frameId, pdfUrl)
  {
  }

  /** The background page's state: the capabilities, the cache of request
      headers (`g_requestHeaders`) and whether the FTP listener is still
      registered. */
  class PdfHandlerBackground {
    const features: Features
    var requestHeaders: map<string, seq<Header>>
    var ftpListenerRegistered: bool

    constructor (features: Features)
      ensures this.features == features && requestHeaders == map[] && ftpListenerRegistered
    {
      this.features := features;
      requestHeaders := map[];
      ftpListenerRegistered := true;
    }

    /** The `onSendHeaders` listener: remembers the request's headers. */
    method OnSendHeaders(d: RequestDetails, headers: seq<Header>)
      requires IsPageRequest(d)
      modifies this
      ensures requestHeaders == old(requestHeaders)[d.requestId := headers]
      ensures ftpListenerRegistered == old(ftpListenerRegistered)
    {
      requestHeaders := requestHeaders[d.requestId := headers];
    }

    /** `forgetHeaders`, run on redirect, completion and error. */
    method ForgetHeaders(d: RequestDetails)
      requires IsPageRequest(d)
      modifies this
      ensures requestHeaders == old(requestHeaders) - {d.requestId}
      ensures ftpListenerRegistered == old(ftpListenerRegistered)
    {
      requestHeaders := requestHeaders - {d.requestId};
    }

    /** `stickRefererToResource`: the session it arms, or `null` when the
      request's headers are not cached or carry no referer. */
    method StickRefererToResource(requestId: string, tabId: int, frameId: int, pdfUrl: string)
      returns (session: RefererSession?)
      ensures session == null <==> StickSession(requestHeaders, requestId, tabId, frameId, pdfUrl).None?
      ensures session != null ==> (fresh(session)
        && session.session == StickSession(requestHeaders, requestId, tabId, frameId, pdfUrl).value
        && session.registered == StuckListeners)
    {
      if requestId !in requestHeaders {
        return null;
      }
      var found := GetHeaderFromHeaders(requestHeaders[requestId], "referer");
      if found.None? {
        return null;
      }
      var referer := requestHeaders[requestId][found.value].value;
      if referer.None? || referer.value == [] {
        return null;
      }
      session := new RefererSession(Session(tabId, frameId, pdfUrl, referer.value));
    }

    /** The `onHeadersReceived` listener on the response's header list, which
      it changes in place when forcing a download (and, as written, also when
      the rewrite pushes a header and then throws). A session is armed on
      every path that shows the viewer, before the outcome is returned. */
    method OnHeadersReceived(d: RequestDetails, responseHeaders: HeaderList)
      returns (outcome: Outcome, session: RefererSession?)
      requires IsFrameRequest(d)
      modifies responseHeaders
      ensures outcome == HeadersReceived(d, old(responseHeaders.items), features)
      ensures responseHeaders.items ==
        (if outcome.ModifiedHeaders? then outcome.responseHeaders
         else if outcome.Thrown? && IsPdfFile(d.url, old(responseHeaders.items)).Success?
                 && Lookup(old(responseHeaders.items), "content-disposition").None?
         then old(responseHeaders.items) + [Header("Content-Disposition", None)]
         else old(responseHeaders.items))
      ensures session == null <==>
        !(IsViewerOutcome(outcome) && StickSession(requestHeaders, d.requestId, d.tabId, d.frameId, d.url).Some?)
      ensures session != null ==> (fresh(session)
        && session.session == StickSession(requestHeaders, d.requestId, d.tabId, d.frameId, d.url).value
        && session.registered == StuckListeners)
    {
      session := null;
      if d.httpMethod != "GET" {
        return Pass, null;
      }
      var isPdf := IsPdfFile(d.url, responseHeaders.items);
      if isPdf.Failure? {
        return Thrown(isPdf.error), null;
      }
      if !isPdf.value {
        return Pass, null;
      }
      if IsPdfDownloadable(d.url, d.resourceType, Some(responseHeaders.items)) {
        AsWrittenFailsIff(responseHeaders.items);
        var rewritten := GetHeadersWithContentDispositionAttachment(responseHeaders);
        if rewritten.Failure? {
          return Thrown(rewritten.error), null;
        }
        if rewritten.value.Some? {
          return ModifiedHeaders(responseHeaders.items), null;
        }
        return Pass, null;
      }
      var viewerUrl := ViewerUrl(d.url);
      session := StickRefererToResource(d.requestId, d.tabId, d.frameId, d.url);
      if features.webRequestRedirectUrl {
        return RedirectTo(viewerUrl), session;
      }
      if d.frameId == 0 {
        return CancelAndNavigateTab(d.tabId, viewerUrl), session;
      }
      outcome := SuppressFrame(SuppressionHeaders, FrameWatch(d.tabId, d.frameId, BeforeFirst(d.url, '#'), viewerUrl));
    }

    /** `onBeforeRequestForFTP`: without FTP support it removes itself and
      lets the request through; otherwise it decides as for local files. */
    method OnBeforeRequestForFtp(d: RequestDetails) returns (outcome: Outcome)
      requires ftpListenerRegistered && IsPdfPathRequest(d, "ftp")
      modifies this
      ensures outcome == (if features.extensionSupportsFTP then BeforeRequest(d) else Pass)
      ensures ftpListenerRegistered == features.extensionSupportsFTP
      ensures requestHeaders == old(requestHeaders)
    {
      if !features.extensionSupportsFTP {
        ftpListenerRegistered := false;
        return Pass;
      }
      if IsPdfDownloadable(d.url, d.resourceType, None) {
        return Pass;
      }
      outcome := RedirectTo(ViewerUrl(d.url));
    }
  }
}
