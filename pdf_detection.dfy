/** The header inspection of the Chromium extension's background page: the
    viewer URL, the "is this a PDF" and "should this be downloaded" tests, and
    the rewrite that forces `Content-Disposition: attachment`. */
module PdfDetection {
  import opened Wrappers
  import opened JsText
  import opened UriCodec
  import opened Browser
  import opened Headers

  /** `VIEWER_URL`: the viewer page of the Chromium extension. */
  function ViewerBase(): string {
    ExtensionUrl(ChromiumExtensionId, "content/web/viewer.html")
  }

  /** `getViewerURL(pdfUrl)`: the viewer page with the PDF's URL,
      percent-encoded, as its `file` parameter. */
  function ViewerUrl(pdfUrl: string): string {
    ViewerBase() + "?file=" + Encode(pdfUrl)
  }

  /** The viewer URL carries exactly the PDF's URL: after `?file=` comes text
      without `#` or `&` that decodes back to it. */
  lemma ViewerUrlRoundTrip(pdfUrl: string)
    ensures var q := ViewerUrl(pdfUrl)[|ViewerBase()| + 6..];
      ViewerUrl(pdfUrl) == ViewerBase() + "?file=" + q
      && '#' !in q && '&' !in q
      && Decode(q) == Some(pdfUrl)
  {
    var q := Encode(pdfUrl);
    assert ViewerUrl(pdfUrl)[|ViewerBase()| + 6..] == q;
    DecodeEncode(pdfUrl);
    EncodeAlphabet(pdfUrl);
  }

  /** The marker a URL carries when the viewer's download button asked for the
      file. */
  const DownloadMarker: string := "pdfjs.action=download"

  /** `/^attachment/i.test(value)`; a missing value is tested as the string
      "undefined" and fails. The disposition type is case-insensitive
      (section 4.2 of RFC 6266). */
  predicate IsAttachment(value: Option<string>) {
    value.Some? && StartsWithIgnoringCase(value.value, "attachment")
  }

  /** `isPdfDownloadable(details)`. `responseHeaders` is absent for
      `onBeforeRequest` events. */
  predicate IsPdfDownloadable(url: string, resourceType: string, responseHeaders: Option<seq<Header>>) {
    if Contains(url, DownloadMarker) then true
    else if resourceType == "main_frame" then false
    else (responseHeaders.Some?
      && match ValueOf(responseHeaders.value, "content-disposition")
         case None => false
         case Some(v) => IsAttachment(v))
  }

  /** The three outcomes of `isPdfDownloadable`, stated through the first
      content-disposition header found by index. */
  lemma DownloadableCases(url: string, resourceType: string, headers: seq<Header>)
    ensures Contains(url, DownloadMarker) ==> IsPdfDownloadable(url, resourceType, Some(headers))
    ensures !Contains(url, DownloadMarker) && resourceType == "main_frame"
      ==> !IsPdfDownloadable(url, resourceType, Some(headers))
    ensures !Contains(url, DownloadMarker) && resourceType != "main_frame"
      ==> (IsPdfDownloadable(url, resourceType, Some(headers)) <==>
           exists i :: 0 <= i < |headers| && NameIs(headers[i], "content-disposition")
             && (forall j :: 0 <= j < i ==> !NameIs(headers[j], "content-disposition"))
             && IsAttachment(headers[i].value))
  {
    if !Contains(url, DownloadMarker) && resourceType != "main_frame" {
      if IsPdfDownloadable(url, resourceType, Some(headers)) {
        var i := Lookup(headers, "content-disposition").value;
        assert NameIs(headers[i], "content-disposition");
      }
    }
  }

  /** Without response headers only the marker makes a download. */
  lemma DownloadableWithoutHeaders(url: string, resourceType: string)
    ensures IsPdfDownloadable(url, resourceType, None) <==> Contains(url, DownloadMarker)
  {
  }

  /** The media type of a `Content-Type` value: lower-cased, cut at the first
      `;` and trimmed (section 3.1.1.1 of RFC 7231: media types are
      case-insensitive). */
  function MediaType(value: string): string {
    Trim(BeforeFirst(Lower(value), ';'))
  }

  /** `isPdfFile(details)`. `Success(false)` stands for both `false` and the
      `undefined` returned when there is no content-type header; a
      content-type header without a value throws. The URL test is
      `indexOf('.pdf') > 0`: the FIRST occurrence must be past index 0. */
  function IsPdfFile(url: string, responseHeaders: seq<Header>): Result<bool, Fault> {
    match ValueOf(responseHeaders, "content-type")
    case None => Success(false)
    case Some(None) => Failure(TypeError)
    case Some(Some(v)) =>
      var mediaType := MediaType(v);
      Success(mediaType == "application/pdf"
        || (mediaType == "application/octet-stream" && IndexOf(Lower(url), ".pdf") > 0))
  }

  /** `isPdfFile` holds exactly when the first content-type header has a value
      whose media type is `application/pdf`, or is `application/octet-stream`
      while the lower-cased URL's first `.pdf` is not at its start; it throws
      exactly when that header has no value. */
  lemma IsPdfFileCases(url: string, headers: seq<Header>)
    ensures IsPdfFile(url, headers).Failure? <==>
      exists i :: 0 <= i < |headers| && Lookup(headers, "content-type") == Some(i) && headers[i].value.None?
    ensures IsPdfFile(url, headers) == Success(true) <==>
      exists i :: 0 <= i < |headers| && Lookup(headers, "content-type") == Some(i) && headers[i].value.Some?
        && (MediaType(headers[i].value.value) == "application/pdf"
            || (MediaType(headers[i].value.value) == "application/octet-stream"
                && (exists k :: 0 < k && OccursAt(Lower(url), ".pdf", k))
                && !OccursAt(Lower(url), ".pdf", 0)))
    ensures (forall i :: 0 <= i < |headers| ==> !NameIs(headers[i], "content-type"))
      ==> IsPdfFile(url, headers) == Success(false)
  {
    var l := Lower(url);
    var idx := IndexOf(l, ".pdf");
    assert idx > 0 <==> (exists k :: 0 < k && OccursAt(l, ".pdf", k)) && !OccursAt(l, ".pdf", 0);
  }

  /** The URL test ignores ASCII case. */
  lemma IsPdfFileIgnoresUrlCase(url: string, headers: seq<Header>)
    ensures IsPdfFile(Lower(url), headers) == IsPdfFile(url, headers)
  {
    LowerIdempotent(url);
  }

  /** The media type ignores case, surrounding white space and parameters. */
  lemma PdfMediaTypeExample()
    ensures MediaType(" Application/PDF ; charset=binary") == "application/pdf"
  {
    var l := " application/pdf ; charset=binary";
    PdfExampleLower(l);
    PdfExampleBeforeFirst(l);
    PdfExampleTrim(" application/pdf ");
  }

  lemma PdfExampleLower(l: string)
    requires l == " application/pdf ; charset=binary"
    ensures Lower(" Application/PDF ; charset=binary") == l
  {
    LowerLetters(" Application/PDF ; charset=binary", l);
  }

  lemma PdfExampleBeforeFirst(l: string)
    requires l == " application/pdf ; charset=binary"
    ensures BeforeFirst(l, ';') == " application/pdf "
  {
    BeforeFirstIs(l, ';', 17);
  }

  lemma PdfExampleTrim(b: string)
    requires b == " application/pdf "
    ensures Trim(b) == "application/pdf"
  {
    LeadingSpaceIs(b, 1);
    TrailingSpaceIs(b[1..], 1);
    assert b[1..][..|b[1..]| - 1] == "application/pdf";
  }

  lemma OctetStreamMediaType()
    ensures MediaType("application/octet-stream") == "application/octet-stream"
  {
    OctetStreamLower();
    OctetStreamBeforeFirst();
    OctetStreamTrim();
  }

  lemma OctetStreamTrim()
    ensures Trim("application/octet-stream") == "application/octet-stream"
  {
    TrimUnpadded("application/octet-stream");
  }

  lemma OctetStreamLower()
    ensures Lower("application/octet-stream") == "application/octet-stream"
  {
    LowerOfLower("application/octet-stream");
  }

  lemma OctetStreamBeforeFirst()
    ensures BeforeFirst("application/octet-stream", ';') == "application/octet-stream"
  {
    var v := "application/octet-stream";
    BeforeFirstIs(v, ';', |v|);
    assert v[..|v|] == v;
  }

  /** A URL that only starts with `.pdf` is not taken for a PDF by a generic
      binary type, even though `.pdf` occurs again later in it. */
  lemma OctetStreamFirstOccurrenceExample()
    ensures IsPdfFile(".pdf/a.pdf", [Header("content-type", Some("application/octet-stream"))]) == Success(false)
  {
    OctetStreamHeader([Header("content-type", Some("application/octet-stream"))]);
    var l := ".pdf/a.pdf";
    LowerOfLower(l);
    assert OccursAt(l, ".pdf", 0);
    OctetStreamMediaType();
  }

  /** A URL containing `.pdf` anywhere past its start passes, even when it does
      not end in `.pdf`. */
  lemma OctetStreamAnywhereExample()
    ensures IsPdfFile("http://a/x.pdf.exe", [Header("content-type", Some("application/octet-stream"))]) == Success(true)
  {
    OctetStreamHeader([Header("content-type", Some("application/octet-stream"))]);
    ExeUrlIndex("http://a/x.pdf.exe");
    OctetStreamMediaType();
  }

  lemma OctetStreamHeader(hs: seq<Header>)
    requires hs == [Header("content-type", Some("application/octet-stream"))]
    ensures ValueOf(hs, "content-type") == Some(Some("application/octet-stream"))
  {
    LowerOfLower("content-type");
    assert NameIs(hs[0], "content-type");
  }

  lemma ExeUrlIndex(url: string)
    requires url == "http://a/x.pdf.exe"
    ensures IndexOf(Lower(url), ".pdf") > 0
  {
    LowerOfLower(url);
    assert OccursAt(url, ".pdf", 10);
    assert url[0..4][0] == 'h';
  }

  // ---------------------------------------------------------------------
  // Forcing Content-Disposition: attachment

  /** The header list after the rewrite, and whether it was changed (the
      function returns `{responseHeaders: headers}` exactly then). */
  datatype Rewrite = Rewrite(headers: seq<Header>, modified: bool)

  /** `getHeadersWithContentDispositionAttachment` as written: a missing
      header is appended without a value, which then fails the test and is
      dereferenced by `.replace`, throwing. */
  function WithAttachmentDispositionAsWritten(headers: seq<Header>): Result<Rewrite, Fault> {
    var (list, i) := match Lookup(headers, "content-disposition")
      case None => (headers + [Header("Content-Disposition", None)], |headers|)
      case Some(k) => (headers, k);
    if IsAttachment(list[i].value) then Success(Rewrite(headers, false))
    else match list[i].value
      case None => Failure(TypeError)
      case Some(v) => Success(Rewrite(list[i := list[i].(value := Some("attachment" + FromFirst(v, ';')))], true))
  }

  /** The rewrite with a missing header or value read as empty text, which
      gives the `attachment` header its comment promises. */
  function WithAttachmentDisposition(headers: seq<Header>): Rewrite {
    var (list, i) := match Lookup(headers, "content-disposition")
      case None => (headers + [Header("Content-Disposition", None)], |headers|)
      case Some(k) => (headers, k);
    if IsAttachment(list[i].value) then Rewrite(headers, false)
    else Rewrite(list[i := list[i].(value := Some("attachment" + FromFirst(list[i].value.GetOr(""), ';')))], true)
  }

  /** Without a content-disposition header the code as written throws, where
      the intended rewrite adds `Content-Disposition: attachment`. */
  lemma MissingDispositionAsWritten(headers: seq<Header>)
    requires forall i :: 0 <= i < |headers| ==> !NameIs(headers[i], "content-disposition")
    ensures WithAttachmentDispositionAsWritten(headers) == Failure(TypeError)
    ensures WithAttachmentDisposition(headers) ==
      Rewrite(headers + [Header("Content-Disposition", Some("attachment"))], true)
  {
    EmptyParameters();
  }

  lemma EmptyParameters()
    ensures "attachment" + FromFirst("", ';') == "attachment"
  {
    assert BeforeFirst("", ';') == "";
  }

  /** The code as written throws exactly when there is no content-disposition
      header or the first one has no value, and then it is a `TypeError`. */
  lemma AsWrittenFailsIff(headers: seq<Header>)
    ensures WithAttachmentDispositionAsWritten(headers).Failure? <==>
      ValueOf(headers, "content-disposition").GetOr(None).None?
    ensures WithAttachmentDispositionAsWritten(headers).Failure? ==>
      WithAttachmentDispositionAsWritten(headers) == Failure(TypeError)
  {
    if Lookup(headers, "content-disposition").None? {
      var list := headers + [Header("Content-Disposition", None)];
      assert list[|headers|].value.None?;
    }
  }

  /** Wherever the first content-disposition header has a value, the code as
      written and the intended rewrite agree. */
  lemma AsWrittenAgreesWithValue(headers: seq<Header>)
    requires ValueOf(headers, "content-disposition").Some?
    requires ValueOf(headers, "content-disposition").value.Some?
    ensures WithAttachmentDispositionAsWritten(headers) == Success(WithAttachmentDisposition(headers))
  {
  }

  /** What the rewrite promises: a first content-disposition header that is
      already an attachment is left alone; otherwise that header (appended if
      missing) is given the `attachment` type, its parameters from the first
      `;` on are kept, and no other header changes. */
  lemma AttachmentRewriteSpec(headers: seq<Header>)
    ensures var r := WithAttachmentDisposition(headers);
      match Lookup(headers, "content-disposition")
      case Some(i) =>
        if IsAttachment(headers[i].value) then r == Rewrite(headers, false)
        else (r.modified && |r.headers| == |headers|
          && r.headers[i] == Header(headers[i].name, Some("attachment" + FromFirst(headers[i].value.GetOr(""), ';')))
          && (forall j :: 0 <= j < |headers| && j != i ==> r.headers[j] == headers[j]))
      case None =>
        r.modified && r.headers == headers + [Header("Content-Disposition", Some("attachment"))]
  {
    EmptyParameters();
  }

  /** After the rewrite the first content-disposition header is an
      attachment. */
  lemma AttachmentRewriteEstablishes(headers: seq<Header>)
    ensures var r := WithAttachmentDisposition(headers);
      ValueOf(r.headers, "content-disposition").Some?
      && IsAttachment(ValueOf(r.headers, "content-disposition").value)
  {
    var r := WithAttachmentDisposition(headers);
    var cd := "content-disposition";
    assert Lower("Content-Disposition") == cd;
    match Lookup(headers, cd)
    case None =>
      EmptyParameters();
      var h := Header("Content-Disposition", Some("attachment"));
      assert r.headers == headers + [h];
      LookupAfterPush(headers, h, cd);
      assert Lower("attachment") == "attachment";
    case Some(i) =>
      if !IsAttachment(headers[i].value) {
        var v := "attachment" + FromFirst(headers[i].value.GetOr(""), ';');
        LookupAfterSetValue(headers, i, Some(v), cd);
        assert v[..10] == "attachment";
        assert Lower("attachment") == "attachment";
      }
  }

  /** Rewriting twice changes nothing the second time. */
  lemma AttachmentRewriteIdempotent(headers: seq<Header>)
    ensures var once := WithAttachmentDisposition(headers);
      WithAttachmentDisposition(once.headers) == Rewrite(once.headers, false)
  {
    var once := WithAttachmentDisposition(headers);
    AttachmentRewriteEstablishes(headers);
    var i := Lookup(once.headers, "content-disposition").value;
    assert IsAttachment(once.headers[i].value);
  }

  /** An `inline` disposition becomes `attachment`, its parameters kept. */
  lemma InlineRewriteExample()
    ensures WithAttachmentDisposition([Header("Content-Disposition", Some("inline; filename=x.pdf"))])
      == Rewrite([Header("Content-Disposition", Some("attachment; filename=x.pdf"))], true)
  {
    var hs := [Header("Content-Disposition", Some("inline; filename=x.pdf"))];
    DispositionHeaderFound(hs);
    InlineIsNotAttachment("inline; filename=x.pdf");
    InlineParameters("inline; filename=x.pdf");
  }

  /** An `attachment` header, in any case, needs no change. */
  lemma AttachmentUnchangedExample()
    ensures WithAttachmentDisposition([Header("content-disposition", Some("Attachment"))])
      == Rewrite([Header("content-disposition", Some("Attachment"))], false)
  {
    var hs := [Header("content-disposition", Some("Attachment"))];
    DispositionHeaderFound(hs);
    LowerLetters("Attachment", "attachment");
  }

  lemma DispositionHeaderFound(hs: seq<Header>)
    requires |hs| == 1 && (hs[0].name == "Content-Disposition" || hs[0].name == "content-disposition")
    ensures Lookup(hs, "content-disposition") == Some(0)
  {
    LowerLetters(hs[0].name, "content-disposition");
  }

  lemma InlineIsNotAttachment(v: string)
    requires v == "inline; filename=x.pdf"
    ensures !IsAttachment(Some(v))
  {
    assert Lower(v[..10])[0] == 'i';
  }

  lemma InlineParameters(v: string)
    requires v == "inline; filename=x.pdf"
    ensures "attachment" + FromFirst(v, ';') == "attachment; filename=x.pdf"
  {
    BeforeFirstIs(v, ';', 6);
  }

  /** `getHeadersWithContentDispositionAttachment(details)` on the event's
      header list, as written: a missing header is pushed without a value,
      and the `.replace` on that missing value then throws, leaving the pushed
      header in the list. Otherwise the list is changed in place as the
      rewrite specifies and returned when it was changed. */
  method GetHeadersWithContentDispositionAttachment(headers: HeaderList) returns (r: Result<Option<HeaderList>, Fault>)
    modifies headers
    ensures var w := WithAttachmentDispositionAsWritten(old(headers.items));
      w.Success? ==>
        headers.items == w.value.headers && r == Success(if w.value.modified then Some(headers) else None)
    ensures var w := WithAttachmentDispositionAsWritten(old(headers.items));
      w.Failure? ==>
        r == Failure(w.error)
        && headers.items == (if Lookup(old(headers.items), "content-disposition").None?
                             then old(headers.items) + [Header("Content-Disposition", None)]
                             else old(headers.items))
  {
    var found := GetHeaderFromHeaders(headers.items, "content-disposition");
    var i: nat;
    if found.None? {
      headers.Push(Header("Content-Disposition", None));
      i := |headers.items| - 1;
    } else {
      i := found.value;
    }
    var value := headers.items[i].value;
    if IsAttachment(value) {
      return Success(None);
    }
    if value.None? {
      return Failure(TypeError);
    }
    headers.SetValue(i, "attachment" + FromFirst(value.value, ';'));
    return Success(Some(headers));
  }
}
