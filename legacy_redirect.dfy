/** The request listener of the legacy Chrome extension, which sends PDFs to a
    page offering the new viewer until it notices that the new extension is
    installed. */
module LegacyRedirect {
  import opened Wrappers
  import opened JsText
  import opened UriCodec
  import opened Browser
  import PdfDetection
  import opened UpdateViewerPage

  /** `isPdfDownloadable(details)`: only the download marker counts. */
  predicate IsPdfDownloadable(url: string) {
    Contains(url, PdfDetection.DownloadMarker)
  }

  /** What `pdf_webRequestListener` does with a request. */
  datatype LegacyOutcome =
    | Pass                       // returns nothing
    | DeactivateAndPass          // runs the deactivation hook, returns nothing
    | RedirectTo(url: string)    // `{redirectUrl: ...}`
    | Thrown(fault: Fault)       // the listener throws

  /** The page that offers the new viewer, in the legacy extension
      `extensionId` itself. */
  function UpdatePage(extensionId: string): string {
    ExtensionUrl(extensionId, "update-pdf-viewer.html")
  }

  /** The listener's filter: an `http`, `https` or `file` URL ending in `.pdf`
      or `.PDF`, loaded in a main frame. */
  predicate ListenerFilter(d: RequestDetails) {
    (StartsWith(d.url, "http://") || StartsWith(d.url, "https://") || StartsWith(d.url, "file://"))
    && (EndsWith(d.url, ".pdf") || EndsWith(d.url, ".PDF"))
    && d.resourceType == "main_frame"
  }

  /** `pdf_webRequestListener(details)` as written, running in the legacy
      extension `extensionId`; `upgraded` is what the upgrade probe
      `checkIfUpgradedSync()` reports. The hook it calls,
      `deactivate_extension`, is defined nowhere (the background page defines
      `deactive_extension`), so the call throws. */
  function WebRequestListenerAsWritten(d: RequestDetails, upgraded: bool, extensionId: string): LegacyOutcome
    requires ListenerFilter(d)
  {
    if IsPdfDownloadable(d.url) then Pass
    else if upgraded then Thrown(ReferenceError)
    else RedirectTo(UpdatePage(extensionId) + ("?file=" + Encode(d.url)))
  }

  /** `pdf_webRequestListener(details)` with the hook it means to call. */
  function WebRequestListener(d: RequestDetails, upgraded: bool, extensionId: string): LegacyOutcome
    requires ListenerFilter(d)
  {
    if IsPdfDownloadable(d.url) then Pass
    else if upgraded then DeactivateAndPass
    else RedirectTo(UpdatePage(extensionId) + ("?file=" + Encode(d.url)))
  }

  /** A marked URL passes whatever the probe would say; otherwise the listener
      deactivates exactly when the probe reports the upgrade and redirects
      exactly when it does not, to the update page with the URL encoded. */
  lemma ListenerCases(d: RequestDetails, upgraded: bool, extensionId: string)
    requires ListenerFilter(d)
    ensures IsPdfDownloadable(d.url) ==>
      WebRequestListener(d, upgraded, extensionId) == WebRequestListener(d, !upgraded, extensionId) == Pass
    ensures WebRequestListener(d, upgraded, extensionId) == DeactivateAndPass <==> !IsPdfDownloadable(d.url) && upgraded
    ensures WebRequestListener(d, upgraded, extensionId).RedirectTo? <==> !IsPdfDownloadable(d.url) && !upgraded
    ensures WebRequestListener(d, upgraded, extensionId).RedirectTo? ==>
      WebRequestListener(d, upgraded, extensionId).url == UpdatePage(extensionId) + (FileParameter + Encode(d.url))
  {
  }

  /** As written the upgrade path throws instead of deactivating; on every
      other path the two agree. */
  lemma DeactivationAsWritten(d: RequestDetails, upgraded: bool, extensionId: string)
    requires ListenerFilter(d)
    ensures !IsPdfDownloadable(d.url) && upgraded ==>
      WebRequestListenerAsWritten(d, upgraded, extensionId) == Thrown(ReferenceError)
      && WebRequestListener(d, upgraded, extensionId) == DeactivateAndPass
    ensures IsPdfDownloadable(d.url) || !upgraded ==>
      WebRequestListenerAsWritten(d, upgraded, extensionId) == WebRequestListener(d, upgraded, extensionId)
  {
  }

  lemma UpdatePageHasNoQuery(extensionId: string)
    requires IsExtensionId(extensionId)
    ensures '?' !in UpdatePage(extensionId) && '#' !in UpdatePage(extensionId)
  {
    var path := "update-pdf-viewer.html";
    assert '?' !in path && '#' !in path;
    ExtensionUrlAvoids(extensionId, path, '?');
    ExtensionUrlAvoids(extensionId, path, '#');
  }

  /** End to end: the update page a redirect lands on links to the legacy
      extension's own viewer page with the same `?file=` query it was given,
      and shows the PDF's URL, decoded from that query, as the link's text. */
  lemma RedirectLandsOnViewerLink(d: RequestDetails, extensionId: string)
    requires ListenerFilter(d) && !IsPdfDownloadable(d.url) && IsExtensionId(extensionId)
    ensures var o := WebRequestListener(d, false, extensionId);
      var query := FileParameter + Encode(d.url);
      o == RedirectTo(UpdatePage(extensionId) + query)
      && ViewerLinkOf(extensionId, o.url) == Some(ViewerLink(GetViewerUrl(extensionId, query, []), Success(d.url)))
  {
    UpdatePageHasNoQuery(extensionId);
    ViewerLinkOfFilePage(extensionId, UpdatePage(extensionId), d.url);
  }
}
