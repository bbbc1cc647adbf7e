/**
 * The two password routes, unlock and protect. Both check the same three
 * body fields, hand the file to qpdf, and name the output after the input
 * with one trailing ".pdf" removed. Their pages rename the upload first:
 * the unlock page strips ".pdf", the protect page means to but its pattern
 * asks for a literal "$".
 */
module PasswordRoutes {
  import opened Wrappers
  import opened Text
  import opened JsValues
  import opened FileNames
  import opened Pdf

  datatype PasswordBody = PasswordBody(pdfBytes: JsValue, password: JsValue, filename: JsValue)

  const UnlockedSuffix := "-unlocked.pdf"
  const ProtectedSuffix := "-protected.pdf"

  /** The shared handler. `output` is what running qpdf and reading its
      output file gives (None when either throws); `replace` on a name that
      is not a string throws too, and the handler answers 500. */
  function Handle<T>(body: PasswordBody, output: Option<T>, suffix: string): (r: Reply<T>)
    ensures !Truthy(body.pdfBytes) || !Truthy(body.password) || !Truthy(body.filename) ==>
              r == Error(400, MissingParameters)
    ensures r.Error? ==> r.status == 400 && r.message == MissingParameters
    ensures Truthy(body.pdfBytes) && Truthy(body.password) && Truthy(body.filename) ==>
              (r.Ok? <==> output.Some? && body.filename.Str?)
    ensures r.Ok? ==> r.result == output.value && r.filename == OutputName(body.filename.s, suffix)
  {
    if !Truthy(body.pdfBytes) || !Truthy(body.password) || !Truthy(body.filename) then
      Error(400, MissingParameters)
    else if output.None? then Crash
    else if body.filename.Str? then Ok(output.value, OutputName(body.filename.s, suffix))
    else Crash
  }

  /** The unlock route. */
  function Unlock<T>(body: PasswordBody, output: Option<T>): (r: Reply<T>)
    ensures r.Ok? ==> body.filename.Str? && r.filename == StripPdf(body.filename.s) + UnlockedSuffix
    ensures r.Error? <==> !Truthy(body.pdfBytes) || !Truthy(body.password) || !Truthy(body.filename)
  {
    Handle(body, output, UnlockedSuffix)
  }

  /** The protect route. */
  function Protect<T>(body: PasswordBody, output: Option<T>): (r: Reply<T>)
    ensures r.Ok? ==> body.filename.Str? && r.filename == StripPdf(body.filename.s) + ProtectedSuffix
    ensures r.Error? <==> !Truthy(body.pdfBytes) || !Truthy(body.password) || !Truthy(body.filename)
  {
    Handle(body, output, ProtectedSuffix)
  }

  /** An empty password is as missing as an absent one. */
  lemma EmptyPasswordRejected<T>(bytes: string, name: string, output: Option<T>)
    ensures Unlock(PasswordBody(Str(bytes), Str(""), Str(name)), output) == Error(400, MissingParameters)
    ensures Protect(PasswordBody(Str(bytes), Str(""), Str(name)), output) == Error(400, MissingParameters)
  {
  }

  /** Only one final, lower-case ".pdf" goes; a name without one keeps
      everything and gains the suffix. */
  lemma OutputShapes(suffix: string)
    ensures OutputName("a.PDF", suffix) == "a.PDF" + suffix
    ensures OutputName("a.pdf.pdf", suffix) == "a.pdf" + suffix
    ensures OutputName("a", suffix) == "a" + suffix
  {
    StripExamples();
    assert !EndsWith("a", PdfExtension);
  }

  lemma OutputExamples()
    ensures OutputName("a.PDF", UnlockedSuffix) == "a.PDF-unlocked.pdf"
    ensures OutputName("a.pdf.pdf", UnlockedSuffix) == "a.pdf-unlocked.pdf"
    ensures OutputName("a", UnlockedSuffix) == "a-unlocked.pdf"
    ensures OutputName("a.PDF", ProtectedSuffix) == "a.PDF-protected.pdf"
    ensures OutputName("a.pdf.pdf", ProtectedSuffix) == "a.pdf-protected.pdf"
  {
    OutputShapes(UnlockedSuffix);
    OutputShapes(ProtectedSuffix);
    UnlockedTexts();
    ProtectedTexts();
  }

  lemma UnlockedTexts()
    ensures "a.PDF" + UnlockedSuffix == "a.PDF-unlocked.pdf"
    ensures "a.pdf" + UnlockedSuffix == "a.pdf-unlocked.pdf"
    ensures "a" + UnlockedSuffix == "a-unlocked.pdf"
  {
  }

  lemma ProtectedTexts()
    ensures "a.PDF" + ProtectedSuffix == "a.PDF-protected.pdf"
    ensures "a.pdf" + ProtectedSuffix == "a.pdf-protected.pdf"
  {
  }

  // ---------------------------------------------------------------------
  // The pages around the routes

  /** The unlock page keeps the upload's name without its ".pdf". */
  function UnlockUploadName(fileName: string): string {
    StripPdf(fileName)
  }

  /** The unlock page strips once and the route strips again: "x.pdf"
      becomes "x-unlocked.pdf", but "x.pdf.pdf" loses both extensions. */
  lemma UnlockPipeline(x: string)
    ensures !EndsWith(x, PdfExtension) ==>
              OutputName(UnlockUploadName(x + PdfExtension), UnlockedSuffix) == x + UnlockedSuffix
    ensures OutputName(UnlockUploadName(x + PdfExtension + PdfExtension), UnlockedSuffix) == x + UnlockedSuffix
  {
    StripAppended(x);
    StripAppended(x + PdfExtension);
    OutputOfPdf(x, UnlockedSuffix);
  }

  /** The protect page's `name.replace(/\.pdf\$/, "")`: the pattern is the
      literal text ".pdf$", anywhere in the name, first occurrence only. */
  function ProtectUploadName(fileName: string): string {
    ReplaceFirst(fileName, ".pdf$", "")
  }

  /** A name without a "$" never matches, so the page keeps it whole. */
  lemma ProtectUploadUnchanged(fileName: string)
    requires '$' !in fileName
    ensures ProtectUploadName(fileName) == fileName
  {
    forall i | 0 <= i && i + 5 <= |fileName|
      ensures !OccursAt(fileName, ".pdf$", i)
    {
      assert fileName[i..i + 5][4] == fileName[i + 4];
      assert fileName[i + 4] in fileName;
    }
  }

  /** So "x.pdf" is sent whole and comes back as "x-protected.pdf": the
      route's own stripping is the only one. */
  lemma ProtectPipeline(x: string)
    requires '$' !in x
    ensures OutputName(ProtectUploadName(x + PdfExtension), ProtectedSuffix) == x + ProtectedSuffix
  {
    assert '$' !in x + PdfExtension by {
      assert forall i :: 0 <= i < |x + PdfExtension| ==> (x + PdfExtension)[i] != '$' by {
        forall i | 0 <= i < |x + PdfExtension|
          ensures (x + PdfExtension)[i] != '$'
        {
          if i < |x| {
            assert (x + PdfExtension)[i] == x[i];
            assert x[i] in x;
          } else {
            assert (x + PdfExtension)[i] == PdfExtension[i - |x|];
          }
        }
      }
    }
    ProtectUploadUnchanged(x + PdfExtension);
    OutputOfPdf(x, ProtectedSuffix);
  }

  /** A name that does hold ".pdf$" loses that text: "a.pdf$b.pdf" is sent
      as "ab.pdf". */
  lemma ProtectLiteralDollar()
    ensures ProtectUploadName("a.pdf$b.pdf") == "ab.pdf"
  {
    var s := "a.pdf$b.pdf";
    assert !OccursAt(s, ".pdf$", 0) by {
      assert s[0..5][0] != '.';
    }
    assert OccursAt(s, ".pdf$", 1);
    assert IndexOfFrom(s, ".pdf$", 1) == Some(1);
    assert IndexOf(s, ".pdf$") == Some(1);
    assert s[..1] + "" + s[6..] == "ab.pdf";
  }
}
