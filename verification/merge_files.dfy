/**
 * What both merge pages know about a chosen file, and the merged document:
 * the pages of every file that loads, one file after the other.
 */
module MergeFiles {
  import opened Wrappers
  import opened Seqs
  import opened Pdf

  /** A chosen file: its name, its MIME type, the pages pdf-lib finds when
      it parses the bytes (None when parsing throws), and whether the file
      is encrypted. */
  datatype PdfFile = PdfFile(name: string, mimeType: string, parsed: Option<Document>, encrypted: bool)

  const PdfType := "application/pdf"

  predicate IsPdfType(f: PdfFile) {
    f.mimeType == PdfType
  }

  /** The drop handlers keep only files whose type is exactly
      "application/pdf"; the file pickers keep everything. */
  function DroppedPdfs(files: seq<PdfFile>): (r: seq<PdfFile>)
    ensures forall i :: 0 <= i < |r| ==> r[i].mimeType == PdfType && r[i] in files
    ensures forall i :: 0 <= i < |files| && files[i].mimeType == PdfType ==> files[i] in r
  {
    Keep(files, IsPdfType)
  }

  /** A drop keeps the PDFs in the order they were dropped: dropping two
      lists one after the other keeps what each keeps. */
  lemma DroppedAppend(a: seq<PdfFile>, b: seq<PdfFile>)
    ensures DroppedPdfs(a + b) == DroppedPdfs(a) + DroppedPdfs(b)
  {
    KeepAppend(a, b, IsPdfType);
  }

  /** A single dropped file is kept exactly when its type is a PDF's. */
  lemma DroppedSingle(f: PdfFile)
    ensures DroppedPdfs([f]) == if f.mimeType == PdfType then [f] else []
  {
    KeepSingle(f, IsPdfType);
  }

  /** `PDFDocument.load(bytes, { ignoreEncryption })`: an encrypted file is
      refused unless encryption is ignored; otherwise the parse decides. */
  function Load(f: PdfFile, ignoreEncryption: bool): (r: Option<Document>)
    ensures f.encrypted && !ignoreEncryption ==> r.None?
    ensures !f.encrypted || ignoreEncryption ==> r == f.parsed
  {
    if f.encrypted && !ignoreEncryption then None else f.parsed
  }

  /** The pages a file contributes: all of them, or none when it does not
      load. */
  function Contribution(f: PdfFile, ignoreEncryption: bool): Document {
    match Load(f, ignoreEncryption)
    case Some(pages) => pages
    case None => []
  }

  function Contributions(files: seq<PdfFile>, ignoreEncryption: bool): (r: seq<Document>)
    ensures |r| == |files|
  {
    seq(|files|, i requires 0 <= i < |files| => Contribution(files[i], ignoreEncryption))
  }

  /** The merged document: every page of every file that loads, in list
      order, each file's pages in their own order. */
  function MergedPages(files: seq<PdfFile>, ignoreEncryption: bool): Document {
    Flatten(Contributions(files, ignoreEncryption))
  }

  lemma ContributionsAppend(a: seq<PdfFile>, b: seq<PdfFile>, ignoreEncryption: bool)
    ensures Contributions(a + b, ignoreEncryption) == Contributions(a, ignoreEncryption) + Contributions(b, ignoreEncryption)
  {
    var l := Contributions(a + b, ignoreEncryption);
    var r := Contributions(a, ignoreEncryption) + Contributions(b, ignoreEncryption);
    assert forall i :: 0 <= i < |l| ==> l[i] == r[i] by {
      forall i | 0 <= i < |l|
        ensures l[i] == r[i]
      {
        if i < |a| {
          assert (a + b)[i] == a[i];
        } else {
          assert (a + b)[i] == b[i - |a|];
        }
      }
    }
  }

  /** Merging two lists of files is merging each and concatenating: the
      output keeps the list order. */
  lemma MergedAppend(a: seq<PdfFile>, b: seq<PdfFile>, ignoreEncryption: bool)
    ensures MergedPages(a + b, ignoreEncryption) == MergedPages(a, ignoreEncryption) + MergedPages(b, ignoreEncryption)
  {
    ContributionsAppend(a, b, ignoreEncryption);
    FlattenAppend(Contributions(a, ignoreEncryption), Contributions(b, ignoreEncryption));
  }

  /** One file on its own merges to its pages, or to nothing when it does
      not load. */
  lemma MergedSingle(f: PdfFile, ignoreEncryption: bool)
    ensures MergedPages([f], ignoreEncryption) == Contribution(f, ignoreEncryption)
  {
    var c := Contributions([f], ignoreEncryption);
    assert c == [Contribution(f, ignoreEncryption)];
    assert c[1..] == [];
    assert Flatten(c) == c[0] + Flatten(c[1..]);
  }

  /** A file that does not load is skipped: the merge is the one without
      it. */
  lemma SkipsUnloadable(a: seq<PdfFile>, f: PdfFile, b: seq<PdfFile>, ignoreEncryption: bool)
    requires Load(f, ignoreEncryption).None?
    ensures MergedPages(a + [f] + b, ignoreEncryption) == MergedPages(a + b, ignoreEncryption)
  {
    MergedAppend(a + [f], b, ignoreEncryption);
    MergedAppend(a, [f], ignoreEncryption);
    MergedSingle(f, ignoreEncryption);
    MergedAppend(a, b, ignoreEncryption);
  }

  /** Page `j` of the `k`-th file, when that file loads, sits in the merged
      document just after the pages of the files before it. */
  lemma MergedLayout(files: seq<PdfFile>, ignoreEncryption: bool, k: nat, j: nat)
    requires k < |files| && Load(files[k], ignoreEncryption).Some?
    requires j < |Load(files[k], ignoreEncryption).value|
    ensures |MergedPages(files, ignoreEncryption)| == TotalLength(Contributions(files, ignoreEncryption))
    ensures TotalLength(Contributions(files[..k], ignoreEncryption)) + j < |MergedPages(files, ignoreEncryption)|
    ensures MergedPages(files, ignoreEncryption)[TotalLength(Contributions(files[..k], ignoreEncryption)) + j]
            == Load(files[k], ignoreEncryption).value[j]
  {
    var c := Contributions(files, ignoreEncryption);
    assert c[..k] == Contributions(files[..k], ignoreEncryption);
    FlattenLayout(c, k, j);
  }
}
