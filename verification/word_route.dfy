/**
 * The PDF-to-Word route: it checks the body, writes the upload to a
 * temporary ".pdf" path, has LibreOffice write the ".docx" next to it, reads
 * that back from a path derived by replacing the first ".pdf" in the input
 * path, and names the result after the upload. And the converter page's own
 * guess at the name, which the route's answer overrides.
 */
module WordRoute {
  import opened Wrappers
  import opened Text
  import opened JsValues
  import opened FileNames
  import opened Pdf

  datatype WordBody = WordBody(pdfBytes: JsValue, filename: JsValue)

  const MissingInput := "Missing input"
  const ConversionFailed := "Failed to convert PDF to Word"
  const DocxExtension := ".docx"

  /** `path.join(tempDir, `${id}.pdf`)`; `id` is a fresh UUID. */
  function InputPath(tempDir: string, id: string): string {
    tempDir + "/" + id + PdfExtension
  }

  /** `inputPath.replace(".pdf", ".docx")`: a plain-string pattern, so only
      the first occurrence is replaced. */
  function OutputPath(inputPath: string): string {
    ReplaceFirst(inputPath, PdfExtension, DocxExtension)
  }

  /** Where the converter writes its result: the input's base name with
      ".docx", in the same directory. */
  function WrittenPath(tempDir: string, id: string): string {
    tempDir + "/" + id + DocxExtension
  }

  /** The returned name: one trailing ".pdf" removed, then ".docx". */
  function DocxName(fileName: string): (r: string)
    ensures EndsWith(fileName, PdfExtension) ==> r == fileName[..|fileName| - 4] + DocxExtension
    ensures !EndsWith(fileName, PdfExtension) ==> r == fileName + DocxExtension
  {
    OutputName(fileName, DocxExtension)
  }

  /** The POST handler. `converted` is what the converter writes (None when
      it fails); reading it back succeeds only when the derived output path
      is where it was written. Every failure after the check, including
      `replace` on a name that is not a string, is the same 500. */
  function Handle<T>(body: WordBody, tempDir: string, id: string, converted: Option<T>): (r: Reply<T>)
    ensures !Truthy(body.pdfBytes) || !Truthy(body.filename) ==> r == Error(400, MissingInput)
    ensures r.Error? ==> (r.status == 400 && r.message == MissingInput) || (r.status == 500 && r.message == ConversionFailed)
    ensures r.Ok? ==> body.filename.Str? && r.filename == DocxName(body.filename.s) && converted.Some? && r.result == converted.value
    ensures Truthy(body.pdfBytes) && Truthy(body.filename) ==>
              (r.Ok? <==> converted.Some? && body.filename.Str? && OutputPath(InputPath(tempDir, id)) == WrittenPath(tempDir, id))
    ensures !r.Crash?
  {
    if !Truthy(body.pdfBytes) || !Truthy(body.filename) then Error(400, MissingInput)
    else if converted.None? || OutputPath(InputPath(tempDir, id)) != WrittenPath(tempDir, id) then Error(500, ConversionFailed)
    else if body.filename.Str? then Ok(converted.value, DocxName(body.filename.s))
    else Error(500, ConversionFailed)
  }

  /** When the temporary directory's path holds no ".pdf" and the id no
      dot, the first ".pdf" of the input path is its extension, so the
      result is read from where it was written. */
  lemma OutputPathOf(tempDir: string, id: string)
    requires !Contains(tempDir, PdfExtension) && '.' !in id
    ensures OutputPath(InputPath(tempDir, id)) == WrittenPath(tempDir, id)
  {
    var s := InputPath(tempDir, id);
    var m := |tempDir|;
    var k := m + 1 + |id|;
    assert s[k..k + 4] == PdfExtension;
    assert OccursAt(s, PdfExtension, k);
    forall j | 0 <= j < k
      ensures !OccursAt(s, PdfExtension, j)
    {
      if j + 4 <= m {
        assert s[j..j + 4] == tempDir[j..j + 4];
        assert !OccursAt(tempDir, PdfExtension, j);
      } else if j < m {
        assert s[m] == '/';
        assert s[j..j + 4][m - j] == '/';
      } else if j == m {
        assert s[j..j + 4][0] == '/';
      } else {
        assert s[j] == id[j - m - 1];
        assert id[j - m - 1] in id;
        assert s[j..j + 4][0] != '.';
      }
    }
    assert IndexOf(s, PdfExtension) == Some(k);
    assert s[..k] == tempDir + "/" + id;
    assert s[k + 4..] == "";
  }

  /** A directory whose path holds ".pdf" gets that ".pdf" replaced
      instead: the result is looked for in the wrong place, and every
      conversion answers 500. */
  lemma DirectoryWithPdf<T>(body: WordBody, converted: Option<T>)
    requires Truthy(body.pdfBytes) && Truthy(body.filename)
    ensures OutputPath(InputPath("/a.pdf", "u")) == "/a.docx/u.pdf"
    ensures Handle(body, "/a.pdf", "u", converted) == Error(500, ConversionFailed)
  {
    DirectoryOutputPath();
    DirectoryWrittenPath();
  }

  lemma DirectoryOutputPath()
    ensures OutputPath(InputPath("/a.pdf", "u")) == "/a.docx/u.pdf"
  {
    var s := InputPath("/a.pdf", "u");
    assert s == "/a.pdf/u.pdf";
    DirectoryFirstPdf(s);
    assert s[..2] + DocxExtension + s[6..] == "/a.docx/u.pdf";
  }

  lemma DirectoryFirstPdf(s: string)
    requires s == "/a.pdf/u.pdf"
    ensures IndexOf(s, PdfExtension) == Some(2)
  {
    assert !OccursAt(s, PdfExtension, 0) by {
      assert s[0..4][0] != '.';
    }
    assert !OccursAt(s, PdfExtension, 1) by {
      assert s[1..5][0] != '.';
    }
    assert OccursAt(s, PdfExtension, 2);
  }

  lemma DirectoryWrittenPath()
    ensures WrittenPath("/a.pdf", "u") == "/a.pdf/u.docx"
    ensures "/a.docx/u.pdf" != "/a.pdf/u.docx"
  {
    assert "/a.docx/u.pdf"[3] != "/a.pdf/u.docx"[3];
  }

  /** The name is stripped case-sensitively: "a.PDF" becomes "a.PDF.docx". */
  lemma DocxNameExamples()
    ensures DocxName("a.pdf") == "a.docx"
    ensures DocxName("a.PDF") == "a.PDF.docx"
  {
    OutputOfPdf("a", DocxExtension);
    assert "a" + PdfExtension == "a.pdf";
    StripExamples();
    assert "a.PDF" + DocxExtension == "a.PDF.docx";
  }

  // ---------------------------------------------------------------------
  // The converter page

  /** `name.replace(/\.pdf$/i, ".docx")`: the page's first guess, which
      ignores case. */
  function PageDocxName(fileName: string): (r: string)
    ensures |fileName| >= 4 && Lower(fileName[|fileName| - 4..]) == PdfExtension ==>
              r == fileName[..|fileName| - 4] + DocxExtension
    ensures !(|fileName| >= 4 && Lower(fileName[|fileName| - 4..]) == PdfExtension) ==> r == fileName
  {
    if |fileName| >= 4 && Lower(fileName[|fileName| - 4..]) == PdfExtension then
      fileName[..|fileName| - 4] + DocxExtension
    else fileName
  }

  /** `data.filename || docxName`: after a conversion the page shows the
      route's name, which is never empty. */
  function ShownName<T>(guess: string, reply: Reply<T>): (r: string)
    ensures reply.Ok? && reply.filename != "" ==> r == reply.filename
    ensures !reply.Ok? ==> r == guess
  {
    if reply.Ok? && reply.filename != "" then reply.filename else guess
  }

  /** On a lower-case ".pdf" the page's guess and the route's name agree. */
  lemma PageAgreesOnLowerCase(x: string)
    ensures PageDocxName(x + PdfExtension) == x + DocxExtension
    ensures DocxName(x + PdfExtension) == x + DocxExtension
  {
    var s := x + PdfExtension;
    assert s[|s| - 4..] == PdfExtension;
    assert Lower(PdfExtension) == PdfExtension;
    assert s[..|s| - 4] == x;
    OutputOfPdf(x, DocxExtension);
  }

  /** The route's name wins: "a.PDF" is first shown as "a.docx", then as
      "a.PDF.docx". */
  lemma RouteNameWins<T>(result: T)
    ensures PageDocxName("a.PDF") == "a.docx"
    ensures ShownName(PageDocxName("a.PDF"), Ok(result, DocxName("a.PDF"))) == "a.PDF.docx"
  {
    assert "a.PDF"[1..] == ".PDF";
    assert Lower(".PDF") == ".pdf";
    assert "a.PDF"[..1] + DocxExtension == "a.docx";
    DocxNameExamples();
  }
}
