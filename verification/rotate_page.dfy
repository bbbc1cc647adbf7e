/**
 * The rotation page: the state behind the form, the page-number inputs, the
 * request it sends to the rotation route and what it does with the answer.
 */
module RotatePage {
  import opened Wrappers
  import opened Text
  import opened JsNumbers
  import opened JsValues
  import opened FileNames
  import opened Pdf
  import opened Seqs
  import RotateRoute

  /** The "Apply to" selector. */
  datatype ApplyTo = All | Single | Multiple

  function ApplyToText(a: ApplyTo): string {
    match a
    case All => "all"
    case Single => "single"
    case Multiple => "multiple"
  }

  /** The page's state. `pageNumbers` holds 0-based indices; None stands for
      NaN, which the single-page input can store. `file` is the encoded
      bytes of the chosen file. */
  datatype RotateState = RotateState(
    file: Option<string>,
    rotated: Option<Document>,
    pdfName: string,
    error: Option<string>,
    rotation: int,
    applyTo: ApplyTo,
    pageNumbers: seq<Option<int>>)

  const Initial := RotateState(None, None, "rotated.pdf", None, 90, All, [])

  // ---------------------------------------------------------------------
  // Page-number inputs

  /** The single-page input: `[Number(value) - 1]`, one entry whatever the
      text. */
  function SinglePage(value: string): (r: seq<Option<int>>)
    ensures |r| == 1
    ensures r[0].Some? <==> StringToNumber(value).Some?
    ensures r[0].Some? ==> r[0].value + 1 == StringToNumber(value).value
  {
    match StringToNumber(value)
    case None => [None]
    case Some(n) => [Some(n - 1)]
  }

  /** One token's index, `Number(n.trim()) - 1`, with None for NaN. */
  function TokenIndex(token: string): Option<int> {
    match StringToNumber(Trim(token))
    case Some(n) => Some(n - 1)
    case None => None
  }

  /** The values that are present and not negative, in order. */
  function NonNegatives(opts: seq<Option<int>>): (r: seq<int>)
    ensures |r| <= |opts|
    ensures forall i :: 0 <= i < |r| ==> r[i] >= 0 && Some(r[i]) in opts
    decreases |opts|
  {
    if |opts| == 0 then []
    else
      var rest := NonNegatives(opts[1..]);
      assert forall i :: 0 <= i < |rest| ==> Some(rest[i]) in opts by {
        forall i | 0 <= i < |rest|
          ensures Some(rest[i]) in opts
        {
          assert Some(rest[i]) in opts[1..];
        }
      }
      if opts[0].Some? && opts[0].value >= 0 then [opts[0].value] + rest else rest
  }

  lemma {:induction false} NonNegativesAppend(a: seq<Option<int>>, b: seq<Option<int>>)
    ensures NonNegatives(a + b) == NonNegatives(a) + NonNegatives(b)
    decreases |a|
  {
    if |a| == 0 {
      assert a + b == b;
    } else {
      assert (a + b)[0] == a[0];
      assert (a + b)[1..] == a[1..] + b;
      NonNegativesAppend(a[1..], b);
    }
  }

  /** `tokens.map(n => Number(n.trim()) - 1)`. */
  function TokenIndices(tokens: seq<string>): (opts: seq<Option<int>>)
    ensures |opts| == |tokens| && forall j :: 0 <= j < |tokens| ==> opts[j] == TokenIndex(tokens[j])
  {
    MapSeq(tokens, TokenIndex)
  }

  /** The tokens' 0-based indices, in order, dropping NaN and negatives. */
  function Indices(tokens: seq<string>): (r: seq<int>)
    ensures forall i :: 0 <= i < |r| ==> r[i] >= 0
    ensures forall i :: 0 <= i < |r| ==> exists j :: 0 <= j < |tokens| && TokenIndex(tokens[j]) == Some(r[i])
    ensures |r| <= |tokens|
  {
    IndicesProvenance(tokens);
    NonNegatives(TokenIndices(tokens))
  }

  /** Each kept index is the index of one of the tokens. */
  lemma IndicesProvenance(tokens: seq<string>)
    ensures var r := NonNegatives(TokenIndices(tokens));
            forall i :: 0 <= i < |r| ==> exists j :: 0 <= j < |tokens| && TokenIndex(tokens[j]) == Some(r[i])
  {
    var opts := TokenIndices(tokens);
    var r := NonNegatives(opts);
    forall i | 0 <= i < |r|
      ensures exists j :: 0 <= j < |tokens| && TokenIndex(tokens[j]) == Some(r[i])
    {
      assert Some(r[i]) in opts;
      var j :| 0 <= j < |opts| && opts[j] == Some(r[i]);
      assert TokenIndex(tokens[j]) == Some(r[i]);
    }
  }

  /** The multiple-pages input: comma-split, each token read with `Number`
      after trimming, one subtracted, and NaN or negative results dropped. */
  function MultiplePages(text: string): seq<int> {
    Indices(SplitOn(text, ','))
  }

  lemma IndicesAppend(a: seq<string>, b: seq<string>)
    ensures Indices(a + b) == Indices(a) + Indices(b)
  {
    MapAppend(a, b, TokenIndex);
    NonNegativesAppend(TokenIndices(a), TokenIndices(b));
  }

  /** Entries keep their input order: the list for two comma-joined texts
      is the first's list followed by the second's. */
  lemma MultipleAppend(a: string, b: string)
    ensures MultiplePages(a + [','] + b) == MultiplePages(a) + MultiplePages(b)
  {
    SplitAppend(a, b, ',');
    IndicesAppend(SplitOn(a, ','), SplitOn(b, ','));
  }

  lemma NumberOfNat(k: nat)
    ensures StringToNumber(NatToString(k)) == Some(k)
    ensures ',' !in NatToString(k)
    ensures Trim(NatToString(k)) == NatToString(k)
  {
    StringToNumberOfString(k);
    assert IntToString(k) == NatToString(k);
    var d := NatToString(k);
    assert forall i :: 0 <= i < |d| ==> IsDigit(d[i]);
    TrimUnpadded(d);
  }

  /** Page `k` written in the list is index `k - 1`; page 0 is dropped. */
  lemma OneNumber(k: nat)
    ensures MultiplePages(NatToString(k)) == if k >= 1 then [k - 1] else []
  {
    NumberOfNat(k);
    SplitWithout(NatToString(k), ',');
    IndicesSingle(NatToString(k));
  }

  /** A text written twice, comma-separated, lists its pages twice. */
  lemma Repeated(a: string, xs: seq<int>)
    requires MultiplePages(a) == xs
    ensures MultiplePages(a + "," + a) == xs + xs
  {
    assert a + "," + a == a + [','] + a;
    MultipleAppend(a, a);
  }

  /** Duplicates are kept: "k,k" gives the index twice. */
  lemma DuplicatesKept(k: nat)
    requires k >= 1
    ensures MultiplePages(NatToString(k) + "," + NatToString(k)) == [k - 1, k - 1]
  {
    var d := NatToString(k);
    OneNumber(k);
    Repeated(d, [k - 1]);
    assert [k - 1] + [k - 1] == [k - 1, k - 1];
  }

  /** Empty tokens are 0 to `Number`, so they become -1 and are dropped. */
  lemma EmptyDropped(a: string)
    ensures MultiplePages("," + a) == MultiplePages(a)
    ensures MultiplePages("") == []
  {
    assert MultiplePages("") == [] by {
      assert SplitOn("", ',') == [""];
      IndicesSingle("");
      assert Trim("") == "";
    }
    assert "," + a == "" + [','] + a;
    MultipleAppend("", a);
  }

  /** A single token gives its index, unless that is NaN or negative. */
  lemma IndicesSingle(t: string)
    ensures Indices([t]) == if TokenIndex(t).Some? && TokenIndex(t).value >= 0 then [TokenIndex(t).value] else []
  {
    assert TokenIndices([t]) == [TokenIndex(t)];
    assert [TokenIndex(t)][1..] == [];
  }

  // ---------------------------------------------------------------------
  // The form

  /** `handleFileChange`: a file that is not "application/pdf" sets an
      error and nothing else; otherwise the file is kept, its name's
      trailing ".pdf" becomes "-rotated.pdf" and an old result is cleared. */
  function FileChosen(s: RotateState, name: string, mimeType: string, encoded: string): (r: RotateState)
    ensures mimeType != "application/pdf" ==> r == s.(error := Some("Please upload a valid PDF file."))
    ensures mimeType == "application/pdf" ==>
              r.file == Some(encoded) && r.error.None? && r.rotated.None? &&
              r.pdfName == ReplacePdf(name, "-rotated.pdf") &&
              r.(file := s.file, error := s.error, rotated := s.rotated, pdfName := s.pdfName) == s
  {
    if mimeType != "application/pdf" then s.(error := Some("Please upload a valid PDF file."))
    else s.(error := None, file := Some(encoded), pdfName := ReplacePdf(name, "-rotated.pdf"), rotated := None)
  }

  /** The JSON body `handleRotate` posts. `pageNumbers` is present only for
      a single or multiple selection. */
  datatype Payload = Payload(
    pdfBytes: string,
    rotation: int,
    filename: string,
    applyTo: ApplyTo,
    pageNumbers: Option<seq<Option<int>>>)

  /** `handleRotate`: with no file it sets an error and sends nothing;
      otherwise it clears the error and sends the payload. */
  function HandleRotate(s: RotateState): (r: (RotateState, Option<Payload>))
    ensures s.file.None? ==> r == (s.(error := Some("Please upload a PDF file first.")), None)
    ensures s.file.Some? ==> r.1.Some? && r.0 == s.(error := None)
    ensures r.1.Some? ==> r.1.value.filename == s.pdfName && r.1.value.rotation == s.rotation
    ensures r.1.Some? ==> (r.1.value.pageNumbers.Some? <==> !s.applyTo.All?)
    ensures r.1.Some? ==> r.1.value.pdfBytes == s.file.value && r.1.value.applyTo == s.applyTo
    ensures r.1.Some? && r.1.value.pageNumbers.Some? ==> r.1.value.pageNumbers.value == s.pageNumbers
  {
    if s.file.None? then (s.(error := Some("Please upload a PDF file first.")), None)
    else
      var numbers := if s.applyTo.Single? || s.applyTo.Multiple? then Some(s.pageNumbers) else None;
      (s.(error := None), Some(Payload(s.file.value, s.rotation, s.pdfName, s.applyTo, numbers)))
  }

  /** A page number as JSON writes it: NaN becomes null. */
  function NumberValue(n: Option<int>): JsValue {
    if n.Some? then Num(n.value) else Null
  }

  /** The body the route receives: JSON keeps strings and numbers, turns a
      NaN entry into null, and leaves `pageNumber` absent, since the page
      never sends it. */
  function ToBody(p: Payload): (b: RotateRoute.RotateBody)
    ensures b.pageNumber == Undefined
    ensures b.filename == Str(p.filename) && b.rotation == Num(p.rotation) && b.pdfBytes == Str(p.pdfBytes)
    ensures b.applyTo == Str(ApplyToText(p.applyTo))
    ensures p.pageNumbers.None? ==> b.pageNumbers == Undefined
    ensures p.pageNumbers.Some? ==>
              b.pageNumbers.Array? && |b.pageNumbers.elems| == |p.pageNumbers.value| &&
              forall i :: 0 <= i < |p.pageNumbers.value| ==>
                b.pageNumbers.elems[i] == NumberValue(p.pageNumbers.value[i])
  {
    var numbers := if p.pageNumbers.Some? then Array(MapSeq(p.pageNumbers.value, NumberValue)) else Undefined;
    RotateRoute.RotateBody(
      Str(p.pdfBytes), Num(p.rotation), Str(p.filename), Undefined,
      Str(ApplyToText(p.applyTo)), numbers)
  }

  /** What the page does with the answer: a result and its name are kept;
      a rejection shows the route's message; an exception shows the
      transport's own message (`transportMessage`). */
  function Receive(s: RotateState, reply: Reply<Document>, transportMessage: string): (r: RotateState)
    ensures reply.Ok? ==> r == s.(rotated := Some(reply.result), pdfName := reply.filename)
    ensures reply.Error? ==> r == s.(error := Some("Failed to rotate PDF: " + reply.message))
    ensures reply.Crash? ==> r == s.(error := Some("Failed to rotate PDF: " + transportMessage))
  {
    match reply
    case Ok(pages, name) => s.(rotated := Some(pages), pdfName := name)
    case Error(_, message) => s.(error := Some("Failed to rotate PDF: " + message))
    case Crash => s.(error := Some("Failed to rotate PDF: " + transportMessage))
  }

  /** `handleReset`: no file, no result, no error, rotation 90, every page,
      no page numbers; the name is kept. */
  function Reset(s: RotateState): (r: RotateState)
    ensures r == Initial.(pdfName := s.pdfName)
  {
    s.(file := None, rotated := None, error := None, rotation := 90, applyTo := All, pageNumbers := [])
  }

  // ---------------------------------------------------------------------
  // The page and the route together

  /** Whatever page selection the form holds, the route turns every page
      (or throws when one would land off a quarter turn): the request never
      carries `pageNumber`, and `applyTo`/`pageNumbers` are not read. */
  lemma SelectionIgnored(s: RotateState, pages: Document)
    requires s.file.Some? && s.file.value != "" && s.pdfName != ""
    ensures var p := HandleRotate(s).1.value;
            RotateRoute.TurnsAll(pages, s.rotation) ==>
            RotateRoute.Handle(ToBody(p), Some(pages))
              == Ok(RotateRoute.RotateAll(pages, s.rotation), OutputName(s.pdfName, RotateRoute.RotatedSuffix))
    ensures var p := HandleRotate(s).1.value;
            !RotateRoute.TurnsAll(pages, s.rotation) ==> RotateRoute.Handle(ToBody(p), Some(pages)) == Crash
  {
    var p := HandleRotate(s).1.value;
    RotateRoute.RotatesAllWithoutTarget(ToBody(p), pages, s.pdfName, s.rotation);
  }

  /** The name is rewritten twice: "x.pdf" is offered back as
      "x-rotated-rotated.pdf". */
  lemma DoubleSuffix(x: string)
    ensures OutputName(ReplacePdf(x + PdfExtension, "-rotated.pdf"), RotateRoute.RotatedSuffix)
            == x + "-rotated-rotated.pdf"
  {
    StripAppended(x);
    assert EndsWith(x + PdfExtension, PdfExtension);
    assert ReplacePdf(x + PdfExtension, "-rotated.pdf") == (x + "-rotated") + PdfExtension;
    OutputOfPdf(x + "-rotated", RotateRoute.RotatedSuffix);
  }
}
