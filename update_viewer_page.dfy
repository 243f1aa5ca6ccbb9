/** The page the legacy extension redirects PDFs to, which offers a link to
    a viewer page: the viewer link it builds from its own URL, and the
    original PDF URL it shows as the link's text. */
module UpdateViewerPage {
  import opened Wrappers
  import opened JsText
  import opened UriCodec
  import opened Browser

  /** `location.search`: from the first `?` before the fragment up to the
      fragment, or empty when that is just `?` or missing. */
  function LocationSearch(pageUrl: string): string {
    var query := FromFirst(BeforeFirst(pageUrl, '#'), '?');
    if |query| <= 1 then [] else query
  }

  /** `location.hash`: from the first `#` on, or empty when that is just `#`
      or missing. */
  function LocationHash(pageUrl: string): string {
    var fragment := FromFirst(pageUrl, '#');
    if |fragment| <= 1 then [] else fragment
  }

  /** `getViewerURL()` on a page of the extension `extensionId`: that
      extension's own viewer page, followed by this page's query string and
      fragment as they are. */
  function GetViewerUrl(extensionId: string, search: string, hash: string): string {
    ExtensionUrl(extensionId, "content/web/viewer.html") + search + hash
  }

  const FileParameter: string := "?file="

  /** `getOriginalPDFUrl()`: `unknown.pdf` unless the query string starts with
      `?file=`; otherwise the decoded text after it, up to a line terminator
      (where `(.*)` stops). A malformed escape throws a `URIError`. */
  function GetOriginalPdfUrl(search: string): Result<string, Fault> {
    if !StartsWith(search, FileParameter) then Success("unknown.pdf")
    else match Decode(BeforeLineTerminator(search[|FileParameter|..]))
      case None => Failure(UriError)
      case Some(url) => Success(url)
  }

  /** A query string of `?file=` and a URL in `encodeURIComponent` form gives
      back that URL. */
  lemma GetOriginalPdfUrlRoundTrip(url: string)
    ensures GetOriginalPdfUrl(FileParameter + Encode(url)) == Success(url)
  {
    var search := FileParameter + Encode(url);
    assert search[..|FileParameter|] == FileParameter;
    assert search[|FileParameter|..] == Encode(url);
    EncodeAlphabet(url);
    BeforeLineTerminatorWhole(Encode(url));
    DecodeEncode(url);
  }

  /** Everything after `?file=` is the URL, `&` and `=` included: there is no
      parsing into parameters. */
  lemma GetOriginalPdfUrlKeepsParameters(text: string)
    requires '%' !in text && forall i :: 0 <= i < |text| ==> !IsLineTerminator(text[i])
    ensures GetOriginalPdfUrl(FileParameter + text) == Success(text)
  {
    var search := FileParameter + text;
    assert search[..|FileParameter|] == FileParameter;
    assert search[|FileParameter|..] == text;
    BeforeLineTerminatorWhole(text);
    DecodeWithoutEscapes(text);
  }

  /** A query string that does not start with `?file=` names no PDF, and a
      malformed escape after it is an error. */
  lemma GetOriginalPdfUrlOtherCases(search: string)
    ensures !StartsWith(search, FileParameter) ==> GetOriginalPdfUrl(search) == Success("unknown.pdf")
    ensures GetOriginalPdfUrl(FileParameter + "%") == Failure(UriError)
  {
    var s := FileParameter + "%";
    assert s[..|FileParameter|] == FileParameter;
    assert s[|FileParameter|..] == "%";
    assert BeforeLineTerminator("%") == "%";
  }

  /** The `viewer-link` anchor: its address and its text. */
  datatype ViewerLink = ViewerLink(href: string, text: Result<string, Fault>)

  /** What the page shows for its own URL: the link when it has a query
      string, nothing otherwise. */
  function ViewerLinkOf(extensionId: string, pageUrl: string): Option<ViewerLink> {
    var search := LocationSearch(pageUrl);
    if search == [] then None
    else Some(ViewerLink(GetViewerUrl(extensionId, search, LocationHash(pageUrl)), GetOriginalPdfUrl(search)))
  }

  /** The query string and fragment of a page URL whose base has no `?` or
      `#` and whose query has no `#`. */
  lemma LocationOf(base: string, query: string)
    requires '?' !in base && '#' !in base && '#' !in query && |query| > 1 && query[0] == '?'
    ensures LocationSearch(base + query) == query
    ensures LocationHash(base + query) == []
  {
    var u := base + query;
    assert forall i :: 0 <= i < |u| ==> u[i] != '#' by {
      forall i | 0 <= i < |u| ensures u[i] != '#' {
        if i < |base| { assert u[i] in base; } else { assert u[i] == query[i - |base|]; assert u[i] in query; }
      }
    }
    BeforeFirstIs(u, '#', |u|);
    assert u[..|u|] == u;
    assert u[..|base|] == base;
    BeforeFirstIs(u, '?', |base|);
    assert u[|base|..] == query;
  }

  /** The query string built from an encoded URL has no fragment mark. */
  lemma NoHashInFileQuery(url: string)
    ensures '#' !in FileParameter + Encode(url)
    ensures |FileParameter + Encode(url)| > 1 && (FileParameter + Encode(url))[0] == '?'
  {
    var query := FileParameter + Encode(url);
    EncodeAlphabet(url);
    forall i | 0 <= i < |query| ensures query[i] != '#' {
      if i >= |FileParameter| { assert query[i] == Encode(url)[i - |FileParameter|]; }
    }
  }

  /** The page reached at `base?file=` and an encoded URL links to its
      extension's viewer page with the same query string and shows the URL. */
  lemma ViewerLinkOfFilePage(extensionId: string, base: string, url: string)
    requires '?' !in base && '#' !in base
    ensures ViewerLinkOf(extensionId, base + (FileParameter + Encode(url)))
      == Some(ViewerLink(GetViewerUrl(extensionId, FileParameter + Encode(url), []), Success(url)))
  {
    var query := FileParameter + Encode(url);
    NoHashInFileQuery(url);
    LocationOf(base, query);
    GetOriginalPdfUrlRoundTrip(url);
  }
}
