/**
 * The file-name rule the PDF tools share: `name.replace(/\.pdf$/, rep)`,
 * which replaces one trailing, lower-case ".pdf" and leaves any other name
 * alone. The API routes strip it and append their own suffix; some upload
 * handlers replace it by a suffix directly.
 */
module FileNames {
  import opened Text

  const PdfExtension := ".pdf"

  /** `name.replace(/\.pdf$/, "")`: exactly one trailing ".pdf" removed,
      case-sensitively; other names are unchanged. */
  function StripPdf(name: string): (r: string)
    ensures EndsWith(name, PdfExtension) ==> r + PdfExtension == name
    ensures !EndsWith(name, PdfExtension) ==> r == name
  {
    if EndsWith(name, PdfExtension) then
      assert name == name[..|name| - 4] + name[|name| - 4..];
      name[..|name| - 4]
    else name
  }

  /** `name.replace(/\.pdf$/, rep)`. */
  function ReplacePdf(name: string, rep: string): (r: string)
    ensures EndsWith(name, PdfExtension) ==> r == StripPdf(name) + rep
    ensures !EndsWith(name, PdfExtension) ==> r == name
  {
    if EndsWith(name, PdfExtension) then StripPdf(name) + rep else name
  }

  /** The routes' output name: `${name.replace(/\.pdf$/, "")}<suffix>`. A
      name ending in ".pdf" loses that ".pdf"; any other keeps everything. */
  function OutputName(name: string, suffix: string): (r: string)
    ensures EndsWith(name, PdfExtension) ==> r == name[..|name| - 4] + suffix
    ensures !EndsWith(name, PdfExtension) ==> r == name + suffix
  {
    StripPdf(name) + suffix
  }

  /** Stripping undoes appending the extension, so it removes exactly one
      ".pdf" even when the name has several. */
  lemma StripAppended(x: string)
    ensures StripPdf(x + PdfExtension) == x
  {
    var s := x + PdfExtension;
    assert s[|s| - 4..] == PdfExtension;
    assert s[..|s| - 4] == x;
  }

  /** A name stripped of its extension and given it back is the name. */
  lemma AppendStripped(name: string)
    requires EndsWith(name, PdfExtension)
    ensures StripPdf(name) + PdfExtension == name
  {
  }

  /** Upper-case and inner extensions are kept: "a.PDF" and "a.pdf.pdf". */
  lemma StripExamples()
    ensures StripPdf("a.PDF") == "a.PDF"
    ensures StripPdf("a.pdf.pdf") == "a.pdf"
    ensures StripPdf("a.pdfx") == "a.pdfx"
  {
    assert !EndsWith("a.PDF", PdfExtension) by {
      assert "a.PDF"[1..] != PdfExtension;
    }
    StripAppended("a.pdf");
    assert "a.pdf" + PdfExtension == "a.pdf.pdf";
    assert !EndsWith("a.pdfx", PdfExtension) by {
      assert "a.pdfx"[2..][3] != PdfExtension[3];
    }
  }

  /** An output name keeps the name's stem and ends with the suffix. */
  lemma OutputOfPdf(x: string, suffix: string)
    ensures OutputName(x + PdfExtension, suffix) == x + suffix
  {
    StripAppended(x);
  }
}
