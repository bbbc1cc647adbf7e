/**
 * The older merge page: a plain list of files, merged only when every one
 * of them loads with pdf-lib's default options.
 */
module MergePageLegacy {
  import opened Wrappers
  import opened Seqs
  import opened Pdf
  import opened MergeFiles

  datatype LegacyState = LegacyState(files: seq<PdfFile>, merging: bool, download: Option<Document>)

  const Initial := LegacyState([], false, None)

  const TooFew := "Please select at least two PDF files to merge."

  /** The picker appends every selected file and drops the old download. */
  function PickFiles(s: LegacyState, selected: seq<PdfFile>): (r: LegacyState)
    ensures |r.files| == |s.files| + |selected|
    ensures r.files[..|s.files|] == s.files && r.files[|s.files|..] == selected
    ensures r.download.None? && r.merging == s.merging
  {
    var files := s.files + selected;
    assert files[|s.files|..] == selected;
    s.(files := files, download := None)
  }

  /** Drag and drop appends only the "application/pdf" files. */
  function DropFiles(s: LegacyState, dropped: seq<PdfFile>): (r: LegacyState)
    ensures r == PickFiles(s, DroppedPdfs(dropped))
    ensures forall i :: |s.files| <= i < |r.files| ==> r.files[i].mimeType == PdfType
  {
    PickFiles(s, DroppedPdfs(dropped))
  }

  /** `removeFile(index)`: `splice(index, 1)` on a copy. */
  function RemoveFile(s: LegacyState, index: int): (r: LegacyState)
    ensures r.merging == s.merging && r.download == s.download
    ensures 0 <= index < |s.files| ==> r.files == s.files[..index] + s.files[index + 1..]
  {
    s.(files := RemoveAt(s.files, index))
  }

  /** `resetFiles`: no files and no download; `merging` is not touched. */
  function ResetFiles(s: LegacyState): (r: LegacyState)
    ensures r.files == [] && r.download.None? && r.merging == s.merging
  {
    s.(files := [], download := None)
  }

  predicate Disabled(s: LegacyState) {
    s.merging || |s.files| < 2
  }

  /** Every file loads with the default options (encrypted files do not). */
  predicate AllLoad(files: seq<PdfFile>) {
    forall i :: 0 <= i < |files| ==> Load(files[i], false).Some?
  }

  /** `mergePDFs`. Fewer than two files: an alert and no change. Otherwise
      `merging` is set and the files are loaded one by one with no handler
      around the loop, so the first file that fails to load ends the merge
      with `merging` still set and no download; when all load, the download
      holds their pages concatenated and `merging` is cleared. */
  function Merge(s: LegacyState): (r: (LegacyState, seq<string>))
    ensures |s.files| < 2 <==> r.1 == [TooFew]
    ensures |s.files| < 2 ==> r.0 == s
    ensures r.0.files == s.files
    ensures |s.files| >= 2 && AllLoad(s.files) ==>
              r.0 == s.(merging := false, download := Some(MergedPages(s.files, false)))
    ensures |s.files| >= 2 && !AllLoad(s.files) ==> r.0 == s.(merging := true) && r.1 == []
  {
    if |s.files| < 2 then (s, [TooFew])
    else if AllLoad(s.files) then (s.(merging := false, download := Some(MergedPages(s.files, false))), [])
    else (s.(merging := true), [])
  }

  /** When every file loads, page `j` of file `k` lands in the download
      right after the pages of the files before it. */
  lemma EveryPageInOrder(s: LegacyState, k: nat, j: nat)
    requires |s.files| >= 2 && AllLoad(s.files)
    requires k < |s.files| && j < |Load(s.files[k], false).value|
    ensures var d := Merge(s).0.download.value;
            TotalLength(Contributions(s.files[..k], false)) + j < |d| &&
            d[TotalLength(Contributions(s.files[..k], false)) + j] == Load(s.files[k], false).value[j]
  {
    MergedLayout(s.files, false, k, j);
  }

  /** An encrypted file in the list blocks the merge: it does not load
      without `ignoreEncryption`. */
  lemma EncryptedBlocks(s: LegacyState, k: nat)
    requires |s.files| >= 2 && k < |s.files| && s.files[k].encrypted
    ensures Merge(s).0 == s.(merging := true)
  {
    assert !AllLoad(s.files) by {
      assert Load(s.files[k], false).None?;
    }
  }

  /** After a merge that stops on a file, the button stays disabled: no
      list operation clears `merging`, not even reset. */
  lemma StuckAfterFailure(s: LegacyState, selected: seq<PdfFile>, index: int)
    requires |s.files| >= 2 && !AllLoad(s.files)
    ensures var t := Merge(s).0;
            Disabled(t) && Disabled(ResetFiles(t)) && Disabled(PickFiles(t, selected)) &&
            Disabled(DropFiles(t, selected)) && Disabled(RemoveFile(t, index))
  {
  }

  /** Files that all load here are loaded by the newer page too, which
      ignores encryption, and they give the same merged document. */
  lemma NewerPageAgrees(files: seq<PdfFile>)
    requires AllLoad(files)
    ensures MergedPages(files, true) == MergedPages(files, false)
  {
    assert Contributions(files, true) == Contributions(files, false) by {
      forall i | 0 <= i < |files|
        ensures Contribution(files[i], true) == Contribution(files[i], false)
      {
        assert Load(files[i], false).Some?;
      }
    }
  }
}
