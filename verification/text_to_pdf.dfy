/**
 * The text-to-PDF page: it reads a plain-text file into the editor, renames
 * it by replacing its last extension with ".pdf", refuses to generate from
 * blank text, and resets to an empty editor. Both copies of the page share
 * this logic.
 */
module TextToPdf {
  import opened Wrappers
  import opened Text

  /** A chosen file: its name, MIME type and text. */
  datatype TextFile = TextFile(name: string, mimeType: string, contents: string)

  datatype TextToPdfState = TextToPdfState(text: string, fileName: string, loading: bool)

  const DefaultName := "converted.pdf"
  const Initial := TextToPdfState("", DefaultName, false)

  const NotText := "Please upload a valid .txt file."
  const EmptyText := "Text content is empty."

  /** A character the extension pattern `[^/.]` accepts. */
  predicate Plain(c: char) {
    c != '/' && c != '.'
  }

  /** The pattern `\.[^/.]+$` matches at `i`: a dot followed by at least
      one plain character and nothing else up to the end of the name. */
  predicate ExtensionAt(name: string, i: int) {
    0 <= i < |name| - 1 && name[i] == '.' && forall j :: i < j < |name| ==> Plain(name[j])
  }

  /** Where the run of plain characters that ends the name starts. */
  function PlainTailStart(name: string, e: nat): (k: nat)
    requires e <= |name|
    ensures k <= e
    ensures forall j :: k <= j < e ==> Plain(name[j])
    ensures k > 0 ==> !Plain(name[k - 1])
    decreases e
  {
    if e == 0 || !Plain(name[e - 1]) then e else PlainTailStart(name, e - 1)
  }

  /** Where the pattern matches, if anywhere. It can match at one place at
      most, so the leftmost match the regular expression finds is the only
      one. */
  function ExtensionStart(name: string): (r: Option<nat>)
    ensures r.Some? ==> ExtensionAt(name, r.value)
    ensures forall i :: ExtensionAt(name, i) ==> r == Some(i)
  {
    var k := PlainTailStart(name, |name|);
    if 1 <= k < |name| && name[k - 1] == '.' then Some(k - 1) else None
  }

  /** `name.replace(/\.[^/.]+$/, ".pdf")`. */
  function PdfFileName(name: string): (r: string)
    ensures forall i :: ExtensionAt(name, i) ==> r == name[..i] + ".pdf"
    ensures (forall i :: !ExtensionAt(name, i)) ==> r == name
  {
    match ExtensionStart(name)
    case Some(i) => name[..i] + ".pdf"
    case None => name
  }

  /** Replacing the extension of a renamed file keeps it: the new name is
      its own rename. */
  lemma RenameIdempotent(name: string)
    ensures PdfFileName(PdfFileName(name)) == PdfFileName(name)
  {
    match ExtensionStart(name)
    case Some(i) =>
      var r := name[..i] + ".pdf";
      assert ExtensionAt(r, i);
      assert r[..i] == name[..i];
    case None =>
  }

  lemma RenameExamples()
    ensures PdfFileName("notes.txt") == "notes.pdf"
    ensures PdfFileName("archive.tar.gz") == "archive.tar.pdf"
    ensures PdfFileName(".bashrc") == ".pdf"
  {
    assert ExtensionAt("notes.txt", 5);
    assert "notes.txt"[..5] == "notes";
    assert ExtensionAt("archive.tar.gz", 11);
    assert "archive.tar.gz"[..11] == "archive.tar";
    assert ExtensionAt(".bashrc", 0);
  }

  /** Names without an extension keep their name and gain no ".pdf": no
      dot, a final dot, and a dot only before the last "/". */
  lemma NoExtensionExamples()
    ensures PdfFileName("notes") == "notes"
    ensures PdfFileName("notes.") == "notes."
    ensures PdfFileName("a.b/c") == "a.b/c"
  {
    assert PlainTailStart("notes", 5) == 0;
    assert PlainTailStart("notes.", 6) == 6;
    assert PlainTailStart("a.b/c", 5) == 4;
  }

  // ---------------------------------------------------------------------
  // The page

  /** Reading a file replaces the text and renames it. */
  function Read(s: TextToPdfState, file: TextFile): (r: TextToPdfState)
    ensures r.text == file.contents && r.fileName == PdfFileName(file.name) && r.loading == s.loading
  {
    s.(text := file.contents, fileName := PdfFileName(file.name))
  }

  /** The file picker: a file is read only when its type is "text/plain". */
  function PickFile(s: TextToPdfState, file: Option<TextFile>): (r: TextToPdfState)
    ensures file.Some? && file.value.mimeType == "text/plain" ==> r == Read(s, file.value)
    ensures !(file.Some? && file.value.mimeType == "text/plain") ==> r == s
  {
    if file.Some? && file.value.mimeType == "text/plain" then Read(s, file.value) else s
  }

  /** Dropping a file: the same test, but anything else is answered with an
      alert. */
  function DropFile(s: TextToPdfState, file: Option<TextFile>): (r: (TextToPdfState, seq<string>))
    ensures r.0 == PickFile(s, file)
    ensures r.1 == [] <==> file.Some? && file.value.mimeType == "text/plain"
    ensures r.1 != [] ==> r.1 == [NotText]
  {
    if file.Some? && file.value.mimeType == "text/plain" then (Read(s, file.value), []) else (s, [NotText])
  }

  /** `generatePDF`: blank text (empty or only whitespace) is refused with
      an alert; otherwise the text is saved under the current name. */
  function Generate(s: TextToPdfState): (r: (seq<string>, Option<(string, string)>))
    ensures r.1.None? <==> forall i :: 0 <= i < |s.text| ==> IsSpace(s.text[i])
    ensures r.1.None? ==> r.0 == [EmptyText]
    ensures r.1.Some? ==> r.0 == [] && r.1.value == (s.text, s.fileName)
  {
    if Trim(s.text) == "" then ([EmptyText], None) else ([], Some((s.text, s.fileName)))
  }

  /** The download button is disabled while generating and for blank
      text. */
  predicate Disabled(s: TextToPdfState) {
    s.loading || Trim(s.text) == ""
  }

  /** When not generating, the button is disabled exactly when generating
      would be refused. */
  lemma DisabledIffRefused(s: TextToPdfState)
    requires !s.loading
    ensures Disabled(s) <==> Generate(s).1.None?
  {
  }

  /** `handleReset`: empty text and the default name; the reset page
      refuses to generate. */
  function Reset(s: TextToPdfState): (r: TextToPdfState)
    ensures r.text == "" && r.fileName == DefaultName && r.loading == s.loading
    ensures Generate(r) == ([EmptyText], None)
  {
    s.(text := "", fileName := DefaultName)
  }
}
