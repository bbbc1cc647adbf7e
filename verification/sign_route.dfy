/**
 * The signing API route: it checks the body, picks one page (the one
 * `pageNumber` indexes, else the first), draws the signature text on it and
 * names the output file; and the two things the signing page does around
 * it, renaming the upload and sending a 0-based page number.
 */
module SignRoute {
  import opened Wrappers
  import opened Text
  import opened JsNumbers
  import opened JsValues
  import opened FileNames
  import opened Pdf

  datatype SignBody = SignBody(
    pdfBytes: JsValue,
    signatureText: JsValue,
    pageNumber: JsValue,
    x: JsValue,
    y: JsValue,
    filename: JsValue)

  const SignedSuffix := "-signed.pdf"

  /** `pages[pageNumber] || pages[0]`: the indexed page when `pageNumber`
      names one, otherwise the first page; a document without pages has
      neither. */
  function SignedPage(pageNumber: JsValue, count: nat): (r: Option<nat>)
    ensures r.Some? ==> r.value < count
    ensures r.None? <==> count == 0
    ensures ArrayIndex(pageNumber, count).Some? ==> r == ArrayIndex(pageNumber, count)
    ensures ArrayIndex(pageNumber, count).None? && count > 0 ==> r == Some(0)
  {
    match ArrayIndex(pageNumber, count)
    case Some(i) => Some(i)
    case None => if count > 0 then Some(0) else None
  }

  /** The signature drawn on one page: the page gains one stamp with the
      body's text and position, and keeps its angle. */
  function Sign(pages: Document, index: nat, body: SignBody): (r: Document)
    requires index < |pages|
    ensures |r| == |pages|
    ensures r[index].angle == pages[index].angle
    ensures r[index].stamps == pages[index].stamps + [Stamp(body.signatureText, body.x, body.y)]
    ensures forall j :: 0 <= j < |r| && j != index ==> r[j] == pages[j]
  {
    pages[index := pages[index].(stamps := pages[index].stamps + [Stamp(body.signatureText, body.x, body.y)])]
  }

  /** The POST handler; `loaded` is the result of loading the bytes (None
      when that throws). Drawing on the missing page of an empty document
      throws, and so does `replace` on a name that is not a string; the
      handler turns both into a 500. */
  function Handle(body: SignBody, loaded: Option<Document>): (r: Reply<Document>)
    ensures !Truthy(body.pdfBytes) || !Truthy(body.signatureText) || !Truthy(body.filename) ==>
              r == Error(400, MissingParameters)
    ensures r.Error? ==> r.status == 400
    ensures r.Ok? ==> loaded.Some? && body.filename.Str? && r.filename == OutputName(body.filename.s, SignedSuffix)
    ensures r.Ok? ==> exists i :: SignedPage(body.pageNumber, |loaded.value|) == Some(i) && r.result == Sign(loaded.value, i, body)
    ensures Truthy(body.pdfBytes) && Truthy(body.signatureText) && Truthy(body.filename) ==>
              (r.Ok? <==> loaded.Some? && |loaded.value| > 0 && body.filename.Str?)
  {
    if !Truthy(body.pdfBytes) || !Truthy(body.signatureText) || !Truthy(body.filename) then
      Error(400, MissingParameters)
    else if loaded.None? then Crash
    else
      match SignedPage(body.pageNumber, |loaded.value|)
      case None => Crash
      case Some(i) =>
        if body.filename.Str? then Ok(Sign(loaded.value, i, body), OutputName(body.filename.s, SignedSuffix))
        else Crash
  }

  /** Exactly one page carries the new signature: a numeric page number
      that is an index picks that page, and any other value the first. */
  lemma SignsOnePage(body: SignBody, pages: Document, name: string, k: int)
    requires Truthy(body.pdfBytes) && Truthy(body.signatureText)
    requires body.filename == Str(name) && name != "" && |pages| > 0
    requires body.pageNumber == Num(k)
    ensures 0 <= k < |pages| ==> Handle(body, Some(pages)) == Ok(Sign(pages, k, body), OutputName(name, SignedSuffix))
    ensures !(0 <= k < |pages|) ==> Handle(body, Some(pages)) == Ok(Sign(pages, 0, body), OutputName(name, SignedSuffix))
  {
    var i := if 0 <= k < |pages| then k else 0;
    assert SignedPage(Num(k), |pages|) == Some(i);
    SignsAt(body, pages, name, i);
  }

  /** A named page is the one signed. */
  lemma SignsAt(body: SignBody, pages: Document, name: string, i: nat)
    requires Truthy(body.pdfBytes) && Truthy(body.signatureText)
    requires body.filename == Str(name) && name != ""
    requires SignedPage(body.pageNumber, |pages|) == Some(i)
    ensures Handle(body, Some(pages)) == Ok(Sign(pages, i, body), OutputName(name, SignedSuffix))
  {
  }

  /** A page number sent as an array names the page its text names:
      `[k]` is the key "k", so an index `k` signs page `k`; `[]` is the
      key "", which names no page, so the first page is signed. */
  lemma ArrayPageNumber(k: nat, count: nat)
    requires count > 0
    ensures k < count ==> SignedPage(Array([Num(k)]), count) == Some(k)
    ensures SignedPage(Array([]), count) == Some(0)
  {
    if k < count {
      ArrayKeyIndex(k, count);
    }
    assert ArrayText([]) == "";
  }

  /** An absent page number signs the first page. */
  lemma AbsentPageNumber(body: SignBody, pages: Document, name: string)
    requires Truthy(body.pdfBytes) && Truthy(body.signatureText)
    requires body.filename == Str(name) && name != "" && |pages| > 0
    requires body.pageNumber == Undefined
    ensures Handle(body, Some(pages)) == Ok(Sign(pages, 0, body), OutputName(name, SignedSuffix))
  {
  }

  // ---------------------------------------------------------------------
  // The signing page around the route

  /** The name the page keeps for an upload: a trailing ".pdf" replaced by
      "-signed.pdf". */
  function UploadName(fileName: string): string {
    ReplacePdf(fileName, SignedSuffix)
  }

  /** The page sends its 1-based page field minus one, so the page the user
      asks for is signed when it exists, and the first page otherwise. */
  lemma UserPageNumber(body: SignBody, pages: Document, name: string, p: int)
    requires Truthy(body.pdfBytes) && Truthy(body.signatureText)
    requires body.filename == Str(name) && name != "" && |pages| > 0
    requires body.pageNumber == Num(p - 1)
    ensures 1 <= p <= |pages| ==> Handle(body, Some(pages)).result == Sign(pages, p - 1, body)
    ensures !(1 <= p <= |pages|) ==> Handle(body, Some(pages)).result == Sign(pages, 0, body)
  {
    SignsOnePage(body, pages, name, p - 1);
  }

  /** The upload is renamed before the route adds its own suffix, so
      "x.pdf" comes back as "x-signed-signed.pdf". */
  lemma DoubleSuffix(x: string)
    ensures OutputName(UploadName(x + PdfExtension), SignedSuffix) == x + "-signed-signed.pdf"
  {
    StripAppended(x);
    assert EndsWith(x + PdfExtension, PdfExtension);
    assert UploadName(x + PdfExtension) == (x + "-signed") + PdfExtension;
    OutputOfPdf(x + "-signed", SignedSuffix);
  }
}
