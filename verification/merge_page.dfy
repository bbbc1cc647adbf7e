/**
 * The merge page: a list of chosen files, each checked once for whether it
 * loads ("locked"), and a merge of the unlocked ones.
 */
module MergePage {
  import opened Wrappers
  import opened Seqs
  import opened Pdf
  import opened MergeFiles

  /** A listed file and the verdict of the check made when it was added. */
  datatype Entry = Entry(file: PdfFile, locked: bool)

  /** The page's state; `download` stands for the merged file behind the
      download link. */
  datatype MergeState = MergeState(files: seq<Entry>, merging: bool, download: Option<Document>)

  const Initial := MergeState([], false, None)

  const TooFew := "Please select at least two unlocked PDF files to merge."
  const NoPages := "No valid pages found to merge."
  const MergeFailed := "An error occurred while merging PDFs."

  /** `detectLockedPdf`: a file is locked exactly when loading it, with
      encryption ignored, throws. */
  predicate DetectLocked(f: PdfFile) {
    Load(f, true).None?
  }

  /** `addFiles`' checked entries, one per file, in order. */
  function Checked(files: seq<PdfFile>): (r: seq<Entry>)
    ensures |r| == |files|
    ensures forall i :: 0 <= i < |r| ==> r[i].file == files[i] && (r[i].locked <==> Load(files[i], true).None?)
  {
    seq(|files|, i requires 0 <= i < |files| => Entry(files[i], DetectLocked(files[i])))
  }

  /** The picker: every selected file is checked and appended after the
      files already listed; the old download is dropped. */
  function PickFiles(s: MergeState, selected: seq<PdfFile>): (r: MergeState)
    ensures |r.files| == |s.files| + |selected|
    ensures r.files[..|s.files|] == s.files
    ensures forall i :: 0 <= i < |selected| ==> r.files[|s.files| + i].file == selected[i]
    ensures r.download.None? && r.merging == s.merging
  {
    s.(files := s.files + Checked(selected), download := None)
  }

  /** Drag and drop: like the picker, but only for "application/pdf"
      files. */
  function DropFiles(s: MergeState, dropped: seq<PdfFile>): (r: MergeState)
    ensures r == PickFiles(s, DroppedPdfs(dropped))
    ensures forall i :: |s.files| <= i < |r.files| ==> r.files[i].file.mimeType == PdfType
  {
    PickFiles(s, DroppedPdfs(dropped))
  }

  /** `removeFile(index)`: `splice(index, 1)` on a copy of the list. */
  function RemoveFile(s: MergeState, index: int): (r: MergeState)
    ensures r.merging == s.merging && r.download == s.download
    ensures 0 <= index < |s.files| ==> r.files == s.files[..index] + s.files[index + 1..]
  {
    s.(files := RemoveAt(s.files, index))
  }

  /** `resetFiles`: no files and no download; a merge in progress is not
      touched. */
  function ResetFiles(s: MergeState): (r: MergeState)
    ensures r.files == [] && r.download.None? && r.merging == s.merging
  {
    s.(files := [], download := None)
  }

  predicate IsUnlocked(e: Entry) {
    !e.locked
  }

  function FilesOf(entries: seq<Entry>): (r: seq<PdfFile>)
    ensures |r| == |entries|
  {
    seq(|entries|, i requires 0 <= i < |entries| => entries[i].file)
  }

  /** `validFiles`: the files of the unlocked entries, in list order. */
  function ValidFiles(entries: seq<Entry>): (r: seq<PdfFile>)
    ensures |r| == |Keep(entries, IsUnlocked)|
    ensures forall i :: 0 <= i < |r| ==> exists j :: 0 <= j < |entries| && !entries[j].locked && entries[j].file == r[i]
  {
    var kept := Keep(entries, IsUnlocked);
    assert forall i :: 0 <= i < |kept| ==> kept[i] in entries && !kept[i].locked;
    FilesOf(kept)
  }

  /** The Merge button is disabled while merging and while fewer than two
      entries are unlocked. */
  predicate Disabled(s: MergeState) {
    s.merging || |Keep(s.files, IsUnlocked)| < 2
  }

  /** `mergePDFs`. With fewer than two unlocked entries it alerts and
      changes nothing. Otherwise every valid file is loaded again with
      encryption ignored, those that fail are skipped, and the pages of the
      rest are concatenated; no pages means an alert and no download, and a
      failing save (`saveFails`) is reported by the outer handler. Every
      path past the guard ends with `merging` false. */
  function Merge(s: MergeState, saveFails: bool): (r: (MergeState, seq<string>))
    ensures |ValidFiles(s.files)| < 2 <==> r.1 == [TooFew]
    ensures |ValidFiles(s.files)| < 2 ==> r.0 == s
    ensures |ValidFiles(s.files)| >= 2 ==> !r.0.merging
    ensures r.0.files == s.files
    ensures r.0.download != s.download ==>
              r.1 == [] && r.0.download == Some(MergedPages(ValidFiles(s.files), true)) &&
              |r.0.download.value| > 0
    ensures |ValidFiles(s.files)| >= 2 && MergedPages(ValidFiles(s.files), true) == [] ==>
              r == (s.(merging := false), [NoPages])
    ensures |ValidFiles(s.files)| >= 2 && MergedPages(ValidFiles(s.files), true) != [] ==>
              (r.1 == [] <==> !saveFails)
    ensures |ValidFiles(s.files)| >= 2 && MergedPages(ValidFiles(s.files), true) != [] && !saveFails ==>
              r == (s.(merging := false, download := Some(MergedPages(ValidFiles(s.files), true))), [])
    ensures |ValidFiles(s.files)| >= 2 && MergedPages(ValidFiles(s.files), true) != [] && saveFails ==>
              r == (s.(merging := false), [MergeFailed])
  {
    var valid := ValidFiles(s.files);
    if |valid| < 2 then (s, [TooFew])
    else
      var pages := MergedPages(valid, true);
      if |pages| == 0 then (s.(merging := false), [NoPages])
      else if saveFails then (s.(merging := false), [MergeFailed])
      else (s.(merging := false, download := Some(pages)), [])
  }

  /** An enabled button always gets past the guard. */
  lemma EnabledMerges(s: MergeState, saveFails: bool)
    requires !Disabled(s)
    ensures Merge(s, saveFails).1 != [TooFew]
    ensures !Merge(s, saveFails).0.merging
  {
  }

  // ---------------------------------------------------------------------
  // Entries whose verdict is the file's own

  /** Every entry's `locked` flag is what checking its file gives. */
  ghost predicate Honest(entries: seq<Entry>) {
    forall i :: 0 <= i < |entries| ==> (entries[i].locked <==> Load(entries[i].file, true).None?)
  }

  /** Every way the list changes keeps the flags honest. */
  lemma HonestPreserved(s: MergeState, selected: seq<PdfFile>, index: int, saveFails: bool)
    requires Honest(s.files)
    ensures Honest(PickFiles(s, selected).files)
    ensures Honest(DropFiles(s, selected).files)
    ensures Honest(RemoveFile(s, index).files)
    ensures Honest(ResetFiles(s).files)
    ensures Honest(Merge(s, saveFails).0.files)
  {
    HonestChecked(s.files, selected);
    HonestChecked(s.files, DroppedPdfs(selected));
    HonestRemoved(s.files, index);
  }

  /** Appending checked files keeps the flags honest. */
  lemma HonestChecked(files: seq<Entry>, selected: seq<PdfFile>)
    requires Honest(files)
    ensures Honest(files + Checked(selected))
  {
    var c := Checked(selected);
    var r := files + c;
    forall i | 0 <= i < |r|
      ensures r[i].locked <==> Load(r[i].file, true).None?
    {
      if i < |files| {
        assert r[i] == files[i];
      } else {
        assert r[i] == c[i - |files|];
      }
    }
  }

  /** Removing an entry keeps the flags honest. */
  lemma HonestRemoved(files: seq<Entry>, index: int)
    requires Honest(files)
    ensures Honest(RemoveAt(files, index))
  {
    var start := SpliceStart(index, |files|);
    if start < |files| {
      var r := RemoveAt(files, index);
      assert r == files[..start] + files[start + 1..];
      forall i | 0 <= i < |r|
        ensures r[i].locked <==> Load(r[i].file, true).None?
      {
        if i < start {
          assert r[i] == files[i];
        } else {
          assert r[i] == files[i + 1];
        }
      }
    }
  }

  /** With honest flags no valid file is skipped: the merge holds every
      page of every unlocked file. */
  lemma NothingSkipped(entries: seq<Entry>)
    requires Honest(entries)
    ensures forall i :: 0 <= i < |ValidFiles(entries)| ==> Load(ValidFiles(entries)[i], true).Some?
  {
    var v := ValidFiles(entries);
    forall i | 0 <= i < |v|
      ensures Load(v[i], true).Some?
    {
      var j :| 0 <= j < |entries| && !entries[j].locked && entries[j].file == v[i];
    }
  }

  /** The valid files of a concatenation are those of each part, in
      order. */
  lemma ValidAppend(a: seq<Entry>, b: seq<Entry>)
    ensures ValidFiles(a + b) == ValidFiles(a) + ValidFiles(b)
  {
    KeepAppend(a, b, IsUnlocked);
    var ka := Keep(a, IsUnlocked);
    var kb := Keep(b, IsUnlocked);
    assert FilesOf(ka + kb) == FilesOf(ka) + FilesOf(kb);
  }

  /** A locked entry never reaches the merge, wherever it is listed. */
  lemma LockedNeverMerged(a: seq<Entry>, e: Entry, b: seq<Entry>)
    requires e.locked
    ensures ValidFiles(a + [e] + b) == ValidFiles(a + b)
  {
    ValidAppend(a + [e], b);
    LockedDropped(a, e);
    ValidAppend(a, b);
  }

  /** A locked entry at the end adds no valid file. */
  lemma LockedDropped(a: seq<Entry>, e: Entry)
    requires e.locked
    ensures ValidFiles(a + [e]) == ValidFiles(a)
  {
    ValidAppend(a, [e]);
    KeepSingle(e, IsUnlocked);
    assert ValidFiles([e]) == [];
  }

  /** Two unlocked files that load merge to the first one's pages followed
      by the second one's. */
  lemma MergeTwo(s: MergeState, f: PdfFile, g: PdfFile, p: Document, q: Document)
    requires s.files == [Entry(f, false), Entry(g, false)]
    requires Load(f, true) == Some(p) && Load(g, true) == Some(q) && |p| > 0
    ensures Merge(s, false) == (s.(merging := false, download := Some(p + q)), [])
  {
    var ef := Entry(f, false);
    var eg := Entry(g, false);
    assert [ef] + [eg] == s.files;
    ValidAppend([ef], [eg]);
    KeepSingle(ef, IsUnlocked);
    KeepSingle(eg, IsUnlocked);
    assert ValidFiles([ef]) == [f];
    assert ValidFiles([eg]) == [g];
    assert ValidFiles(s.files) == [f] + [g];
    MergedAppend([f], [g], true);
    MergedSingle(f, true);
    MergedSingle(g, true);
  }
}
