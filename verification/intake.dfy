/**
  The intake pipeline (`handleFileChange`): the selected files are narrowed
  to PDFs, each PDF's text is extracted in turn, a success stages one
  resume and a failure overwrites the single error slot without stopping
  the batch, and once every file has settled the staged resumes whose
  names are not yet in the store are appended to it.

  The PDF reader and the file reader are outside the model: each file comes
  with the outcome of its extraction, either the text items of its pages or
  a failure.
 */
module Intake {
  import opened Strings
  import opened Resumes

  /** The only media type the file input accepts. */
  const PdfType: string := "application/pdf"

  /** What reading and parsing one file produced: for every page, in order,
      the `str` of each text item on it; or a failure of either step. */
  datatype Extraction = Extracted(pages: seq<seq<string>>) | Failed

  /** One file of the selection. */
  datatype PickedFile = PickedFile(name: string, mediaType: string, extraction: Extraction)

  /** The `error` state: `null` or one message. */
  datatype ErrorSlot = NoError | ErrorMessage(text: string)

  /** The message shown for a file that could not be processed. */
  function FailureMessage(name: string): string {
    "Failed to process " + name + ". It might be corrupted or protected."
  }

  // ---------------------------------------------------------------------
  // Text assembly

  /** One page's line: its items joined with single spaces. */
  function PageLine(items: seq<string>): string {
    Join(items, ' ')
  }

  /** `fullText`: for each page in turn, its line followed by a newline. */
  function DocumentText(pages: seq<seq<string>>): string
    decreases |pages|
  {
    if pages == [] then ""
    else DocumentText(pages[..|pages| - 1]) + PageLine(pages[|pages| - 1]) + "\n"
  }

  /** The lines of all pages, in page order. */
  function PageLines(pages: seq<seq<string>>): (lines: seq<string>)
    ensures |lines| == |pages|
    ensures forall k :: 0 <= k < |pages| ==> lines[k] == PageLine(pages[k])
  {
    seq(|pages|, k requires 0 <= k < |pages| => PageLine(pages[k]))
  }

  /** The text is the page lines joined by newlines with a final newline
      after the last page (and empty for a document without pages). */
  lemma {:induction false} DocumentTextIsJoin(pages: seq<seq<string>>)
    ensures DocumentText(pages) == Join(PageLines(pages) + [""], '\n')
    decreases |pages|
  {
    if pages != [] {
      var init := pages[..|pages| - 1];
      var line := PageLine(pages[|pages| - 1]);
      var lines := PageLines(init);
      assert DocumentText(pages) == DocumentText(init) + line + "\n";
      assert PageLines(pages) == lines + [line];
      DocumentTextIsJoin(init);
      if init == [] {
        assert PageLines(pages) + [""] == [line, ""];
        assert Join([line, ""], '\n') == line + "\n" + Join([""], '\n');
      } else {
        JoinSnoc(lines, "", '\n');
        JoinSnoc(lines, line, '\n');
        JoinSnoc(lines + [line], "", '\n');
        assert DocumentText(init) == Join(lines, '\n') + "\n";
        assert Join(lines + [line] + [""], '\n') == Join(lines, '\n') + "\n" + line + "\n";
      }
    }
  }

  /** When no text item holds a newline, splitting the text on newlines
      recovers the page lines, followed by the empty remainder after the
      final newline. */
  lemma DocumentTextLines(pages: seq<seq<string>>)
    requires forall p, k :: 0 <= p < |pages| && 0 <= k < |pages[p]| ==> '\n' !in pages[p][k]
    ensures Split(DocumentText(pages), '\n') == PageLines(pages) + [""]
  {
    var lines := PageLines(pages) + [""];
    forall k | 0 <= k < |lines| ensures '\n' !in lines[k] {
      if k < |pages| {
        JoinAvoids(pages[k], ' ', '\n');
      }
    }
    DocumentTextIsJoin(pages);
    SplitJoin(lines, '\n');
  }

  // ---------------------------------------------------------------------
  // The per-file loop

  /** The state of one batch: the staged resumes (`newResumes`), the error
      slot, and the next unused id. */
  datatype Batch = Batch(staged: seq<Resume>, error: ErrorSlot, nextId: nat)

  /** The text a file contributes: its assembled page text when its
      extraction succeeded (a failed file stages nothing, so its empty text
      is never used). */
  function ExtractedText(e: Extraction): string {
    match e
    case Extracted(pages) => DocumentText(pages)
    case Failed => ""
  }

  /** The resume staged for file `f` under id `id`. */
  function Stage(id: nat, f: PickedFile): Resume {
    Resume(id, f.name, ExtractedText(f.extraction))
  }

  /** One iteration of the `for` loop. */
  function ProcessFile(b: Batch, f: PickedFile): Batch {
    match f.extraction
    case Extracted(_) =>
      Batch(b.staged + [Stage(b.nextId, f)], b.error, b.nextId + 1)
    case Failed =>
      b.(error := ErrorMessage(FailureMessage(f.name)))
  }

  /** A successful file stages one resume with the next id. */
  lemma ProcessFileExtracted(b: Batch, f: PickedFile)
    requires f.extraction.Extracted?
    ensures ProcessFile(b, f).staged == b.staged + [Stage(b.nextId, f)]
  {
  }

  /** The loop over `files`, strictly in order: file `i` is processed on the
      state left by files `0 .. i-1`. */
  function ProcessFiles(b: Batch, files: seq<PickedFile>): Batch
    decreases |files|
  {
    if files == [] then b
    else ProcessFile(ProcessFiles(b, files[..|files| - 1]), files[|files| - 1])
  }

  /** The files whose extraction succeeded, in input order. */
  function Successes(files: seq<PickedFile>): (r: seq<PickedFile>)
    ensures forall k :: 0 <= k < |r| ==> r[k].extraction.Extracted?
    ensures |r| <= |files|
    decreases |files|
  {
    if files == [] then []
    else
      var n := |files| - 1;
      Successes(files[..n]) + (if files[n].extraction.Extracted? then [files[n]] else [])
  }

  /** The successes are exactly the files whose extraction succeeded. */
  lemma {:induction false} SuccessesMembers(files: seq<PickedFile>)
    ensures forall f :: f in Successes(files) <==> f in files && f.extraction.Extracted?
    decreases |files|
  {
    if files != [] {
      var n := |files| - 1;
      SuccessesMembers(files[..n]);
      assert files == files[..n] + [files[n]];
    }
  }

  /** The files whose extraction failed, in input order. */
  function Failures(files: seq<PickedFile>): (r: seq<PickedFile>)
    ensures forall k :: 0 <= k < |r| ==> r[k].extraction.Failed?
    decreases |files|
  {
    if files == [] then []
    else
      var n := |files| - 1;
      Failures(files[..n]) + (if files[n].extraction.Failed? then [files[n]] else [])
  }

  /** Every file either succeeds or fails. */
  lemma {:induction false} SuccessesAndFailures(files: seq<PickedFile>)
    ensures |Successes(files)| + |Failures(files)| == |files|
    decreases |files|
  {
    if files != [] {
      SuccessesAndFailures(files[..|files| - 1]);
    }
  }

  /** One more file after a batch: its successes gain that file exactly
      when it succeeded. */
  lemma SuccessesSnoc(files: seq<PickedFile>, f: PickedFile)
    ensures Successes(files + [f]) == Successes(files) + (if f.extraction.Extracted? then [f] else [])
  {
    assert (files + [f])[..|files|] == files;
  }

  /** Keeping the successes distributes over concatenation. */
  lemma {:induction false} SuccessesAppend(a: seq<PickedFile>, b: seq<PickedFile>)
    ensures Successes(a + b) == Successes(a) + Successes(b)
    decreases |b|
  {
    if b == [] {
      assert a + b == a;
    } else {
      var n := |b| - 1;
      var f := b[n];
      SuccessesAppend(a, b[..n]);
      assert a + b == (a + b[..n]) + [f];
      assert b == b[..n] + [f];
      SuccessesSnoc(a + b[..n], f);
      SuccessesSnoc(b[..n], f);
    }
  }

  /** The resumes a sequence of successful files stages, ids counted from
      `firstId`. */
  function Candidates(succeeded: seq<PickedFile>, firstId: nat): (r: seq<Resume>)
    ensures |r| == |succeeded|
    decreases |succeeded|
  {
    if succeeded == [] then []
    else
      var n := |succeeded| - 1;
      Candidates(succeeded[..n], firstId) + [Stage(firstId + n, succeeded[n])]
  }

  /** One more successful file adds one candidate at the end. */
  lemma CandidatesSnoc(succeeded: seq<PickedFile>, f: PickedFile, firstId: nat)
    ensures Candidates(succeeded + [f], firstId) == Candidates(succeeded, firstId) + [Stage(firstId + |succeeded|, f)]
  {
    assert (succeeded + [f])[..|succeeded|] == succeeded;
  }

  /** Candidate `k` is the resume of the `k`-th successful file: id
      `firstId + k`, that file's name, and the text assembled from its
      pages; so the candidates' ids are distinct. */
  lemma {:induction false} CandidatesAt(succeeded: seq<PickedFile>, firstId: nat)
    ensures forall k :: 0 <= k < |succeeded| ==> Candidates(succeeded, firstId)[k] == Stage(firstId + k, succeeded[k])
    ensures forall k :: 0 <= k < |succeeded| && succeeded[k].extraction.Extracted? ==>
      Candidates(succeeded, firstId)[k]
        == Resume(firstId + k, succeeded[k].name, DocumentText(succeeded[k].extraction.pages))
    ensures forall k :: 0 <= k < |succeeded| ==> Candidates(succeeded, firstId)[k].id == firstId + k
    ensures DistinctIds(Candidates(succeeded, firstId))
    decreases |succeeded|
  {
    if succeeded != [] {
      var n := |succeeded| - 1;
      var init := succeeded[..n];
      CandidatesAt(init, firstId);
      var r := Candidates(succeeded, firstId);
      forall k | 0 <= k < |succeeded| ensures r[k] == Stage(firstId + k, succeeded[k]) {
        if k < n {
          assert r[k] == Candidates(init, firstId)[k];
          assert init[k] == succeeded[k];
        }
      }
    }
  }


  /** Each success stages exactly one resume, in input order, holding the
      file's name and its assembled text, with consecutive fresh ids; a
      failure stages nothing. */
  lemma {:induction false} ProcessFilesStages(b: Batch, files: seq<PickedFile>)
    ensures ProcessFiles(b, files).staged == b.staged + Candidates(Successes(files), b.nextId)
    ensures ProcessFiles(b, files).nextId == b.nextId + |Successes(files)|
    decreases |files|
  {
    if files != [] {
      ProcessFilesStages(b, files[..|files| - 1]);
      StagesStep(b, files);
    }
  }

  /** The inductive step of `ProcessFilesStages`: the last file. */
  lemma StagesStep(b: Batch, files: seq<PickedFile>)
    requires files != []
    requires ProcessFiles(b, files[..|files| - 1]).staged
      == b.staged + Candidates(Successes(files[..|files| - 1]), b.nextId)
    requires ProcessFiles(b, files[..|files| - 1]).nextId
      == b.nextId + |Successes(files[..|files| - 1])|
    ensures ProcessFiles(b, files).staged == b.staged + Candidates(Successes(files), b.nextId)
    ensures ProcessFiles(b, files).nextId == b.nextId + |Successes(files)|
  {
    var n := |files| - 1;
    var f := files[n];
    var before := ProcessFiles(b, files[..n]);
    var s := Successes(files[..n]);
    var c := Candidates(s, b.nextId);
    if f.extraction.Extracted? {
      var added := Stage(b.nextId + |s|, f);
      calc {
        ProcessFiles(b, files).staged;
        ProcessFile(before, f).staged;
        { ProcessFileExtracted(before, f); }
        before.staged + [added];
        (b.staged + c) + [added];
        b.staged + (c + [added]);
        { CandidatesSnoc(s, f, b.nextId); }
        b.staged + Candidates(s + [f], b.nextId);
      }
    } else {
      assert Successes(files) == s + [];
      assert s + [] == s;
    }
  }

  /** File `k` is the last of `files` whose extraction failed. */
  predicate LastFailureAt(files: seq<PickedFile>, k: int) {
    && 0 <= k < |files|
    && files[k].extraction.Failed?
    && forall j :: k < j < |files| ==> files[j].extraction.Extracted?
  }

  /** The error slot after the loop: untouched when every file succeeded,
      and otherwise the message naming the last file that failed. */
  lemma {:induction false} ProcessFilesError(b: Batch, files: seq<PickedFile>)
    ensures (forall k :: 0 <= k < |files| ==> files[k].extraction.Extracted?) ==>
      ProcessFiles(b, files).error == b.error
    ensures forall k :: LastFailureAt(files, k) ==>
      ProcessFiles(b, files).error == ErrorMessage(FailureMessage(files[k].name))
    decreases |files|
  {
    if files != [] {
      var n := |files| - 1;
      var init := files[..n];
      var f := files[n];
      ProcessFilesError(b, init);
      assert ProcessFiles(b, files) == ProcessFile(ProcessFiles(b, init), f);
      if f.extraction.Failed? {
        forall k | LastFailureAt(files, k) ensures k == n {
        }
      } else {
        forall k | LastFailureAt(files, k) ensures LastFailureAt(init, k) {
          LastFailureInPrefix(files, k);
        }
      }
    }
  }

  /** When the last file succeeded, the last failure lies in the files
      before it. */
  lemma LastFailureInPrefix(files: seq<PickedFile>, k: int)
    requires LastFailureAt(files, k) && files[|files| - 1].extraction.Extracted?
    ensures k < |files| - 1 && LastFailureAt(files[..|files| - 1], k)
  {
    var init := files[..|files| - 1];
    forall j | k < j < |init| ensures init[j].extraction.Extracted? {
      assert init[j] == files[j];
    }
  }

  /** A failing file does not disturb what the other files stage. */
  lemma FailureIsIsolated(b: Batch, before: seq<PickedFile>, failed: PickedFile, after: seq<PickedFile>)
    requires failed.extraction.Failed?
    ensures ProcessFiles(b, before + [failed] + after).staged == ProcessFiles(b, before + after).staged
    ensures ProcessFiles(b, before + [failed] + after).nextId == ProcessFiles(b, before + after).nextId
  {
    SuccessesAppend(before, [failed]);
    SuccessesAppend(before + [failed], after);
    SuccessesAppend(before, after);
    assert Successes([failed]) == [];
    assert Successes(before) + [] == Successes(before);
    ProcessFilesStages(b, before + [failed] + after);
    ProcessFilesStages(b, before + after);
  }

  // ---------------------------------------------------------------------
  // The merge into the store

  /** `newResumes.filter(r => !existingNames.has(r.name))`: the staged
      resumes whose name is not in `existing`, in staged order. */
  function KeepNew(staged: seq<Resume>, existing: set<string>): (r: seq<Resume>)
    ensures forall c :: c in r <==> c in staged && c.name !in existing
    ensures |r| <= |staged|
  {
    if staged == [] then []
    else (if staged[0].name in existing then [] else [staged[0]]) + KeepNew(staged[1..], existing)
  }

  /** The filter keeps staged order: it distributes over concatenation. */
  lemma {:induction false} KeepNewAppend(a: seq<Resume>, b: seq<Resume>, existing: set<string>)
    ensures KeepNew(a + b, existing) == KeepNew(a, existing) + KeepNew(b, existing)
    decreases |a|
  {
    if a == [] {
      assert a + b == b;
    } else {
      assert (a + b)[0] == a[0];
      assert (a + b)[1..] == a[1..] + b;
      KeepNewAppend(a[1..], b, existing);
    }
  }

  /** When no staged name is taken, the filter keeps everything. */
  lemma {:induction false} KeepNewAllNew(staged: seq<Resume>, existing: set<string>)
    requires forall k :: 0 <= k < |staged| ==> staged[k].name !in existing
    ensures KeepNew(staged, existing) == staged
    decreases |staged|
  {
    if staged != [] {
      KeepNewAllNew(staged[1..], existing);
      assert staged == [staged[0]] + staged[1..];
    }
  }

  /** `[...prevResumes, ...uniqueNewResumes]`: the store is an unchanged
      prefix, and after it come exactly the staged resumes whose names the
      store did not hold before the batch. */
  function Merge(prev: seq<Resume>, staged: seq<Resume>): (r: seq<Resume>)
    ensures |r| >= |prev| && r[..|prev|] == prev
    ensures forall c :: c in r[|prev|..] <==> c in staged && c.name !in Names(prev)
  {
    var r := prev + KeepNew(staged, Names(prev));
    assert r[|prev|..] == KeepNew(staged, Names(prev));
    r
  }

  /** Two staged resumes with the same new name are both appended: the
      merge checks names against the prior store only, so a batch can put
      duplicate names into the store. */
  lemma SameNameInBatchBothKept(prev: seq<Resume>, a: Resume, b: Resume)
    requires a.name == b.name && a.name !in Names(prev)
    ensures Merge(prev, [a, b]) == prev + [a, b]
    ensures !UniqueNames(Merge(prev, [a, b]))
  {
    KeepNewAllNew([a, b], Names(prev));
    var r := Merge(prev, [a, b]);
    assert r[|prev|].name == r[|prev| + 1].name;
  }

  /** Name uniqueness survives the merge when the batch itself holds no
      duplicate names. */
  lemma MergeKeepsUniqueNames(prev: seq<Resume>, staged: seq<Resume>)
    requires UniqueNames(prev) && UniqueNames(staged)
    ensures UniqueNames(Merge(prev, staged))
  {
    var kept := KeepNew(staged, Names(prev));
    KeepNewUniqueNames(staged, Names(prev));
    var r := prev + kept;
    forall i, j | 0 <= i < j < |r| ensures r[i].name != r[j].name {
      if j >= |prev| && i < |prev| {
        assert r[j] in kept;
        assert r[i] in prev;
      }
    }
  }

  /** A filter of a duplicate-free batch is duplicate-free. */
  lemma {:induction false} KeepNewUniqueNames(staged: seq<Resume>, existing: set<string>)
    requires UniqueNames(staged)
    ensures UniqueNames(KeepNew(staged, existing))
    decreases |staged|
  {
    if staged != [] {
      KeepNewUniqueNames(staged[1..], existing);
      var rest := KeepNew(staged[1..], existing);
      forall j | 0 <= j < |rest| ensures rest[j].name != staged[0].name {
        assert rest[j] in staged[1..];
      }
    }
  }

  /** A filter of a batch with distinct ids has distinct ids. */
  lemma {:induction false} KeepNewDistinctIds(staged: seq<Resume>, existing: set<string>)
    requires DistinctIds(staged)
    ensures DistinctIds(KeepNew(staged, existing))
    decreases |staged|
  {
    if staged != [] {
      KeepNewDistinctIds(staged[1..], existing);
      var rest := KeepNew(staged[1..], existing);
      forall j | 0 <= j < |rest| ensures rest[j].id != staged[0].id {
        assert rest[j] in staged[1..];
      }
    }
  }

  // ---------------------------------------------------------------------
  // The handler

  /** The application state the handler reads and writes. */
  datatype AppState = AppState(resumes: seq<Resume>, error: ErrorSlot, nextId: nat)

  /** `Array.from(files).filter(f => f.type === 'application/pdf')`. */
  function PdfFiles(selection: seq<PickedFile>): (r: seq<PickedFile>)
    ensures forall f :: f in r <==> f in selection && f.mediaType == PdfType
  {
    if selection == [] then []
    else (if selection[0].mediaType == PdfType then [selection[0]] else []) + PdfFiles(selection[1..])
  }

  /** `handleFileChange`. An empty PDF selection changes nothing, not even
      the error slot; otherwise the error slot is cleared, the PDFs are
      processed in order, and the staged resumes with names new to the
      store are appended to it. */
  function HandleFileChange(s: AppState, selection: seq<PickedFile>): (s': AppState)
    ensures PdfFiles(selection) == [] ==> s' == s
    ensures |s'.resumes| >= |s.resumes| && s'.resumes[..|s.resumes|] == s.resumes
    ensures s'.nextId >= s.nextId
  {
    var pdfs := PdfFiles(selection);
    if pdfs == [] then s
    else
      var b := ProcessFiles(Batch([], NoError, s.nextId), pdfs);
      ProcessFilesStages(Batch([], NoError, s.nextId), pdfs);
      AppState(Merge(s.resumes, b.staged), b.error, b.nextId)
  }

  /** Files of any other type play no part: the handler behaves as if only
      the PDFs had been selected. */
  lemma {:induction false} NonPdfFilesIgnored(s: AppState, selection: seq<PickedFile>)
    ensures HandleFileChange(s, selection) == HandleFileChange(s, PdfFiles(selection))
  {
    PdfFilesIdempotent(selection);
  }

  /** Selecting the PDFs a second time changes nothing. */
  lemma {:induction false} PdfFilesIdempotent(selection: seq<PickedFile>)
    ensures PdfFiles(PdfFiles(selection)) == PdfFiles(selection)
    decreases |selection|
  {
    if selection != [] {
      PdfFilesIdempotent(selection[1..]);
      var head := if selection[0].mediaType == PdfType then [selection[0]] else [];
      PdfFilesAppend(head, PdfFiles(selection[1..]));
    }
  }

  /** Selecting the PDFs distributes over concatenation. */
  lemma {:induction false} PdfFilesAppend(a: seq<PickedFile>, b: seq<PickedFile>)
    ensures PdfFiles(a + b) == PdfFiles(a) + PdfFiles(b)
    decreases |a|
  {
    if a == [] {
      assert a + b == b;
    } else {
      assert (a + b)[0] == a[0];
      assert (a + b)[1..] == a[1..] + b;
      PdfFilesAppend(a[1..], b);
    }
  }

  /** The whole batch: the store grows by the successfully extracted PDFs
      whose names it did not already hold, in selection order, and the
      error slot ends up empty when no PDF failed, else naming the last PDF
      that failed. */
  lemma HandleFileChangeOutcome(s: AppState, selection: seq<PickedFile>)
    requires PdfFiles(selection) != []
    ensures var pdfs := PdfFiles(selection);
      HandleFileChange(s, selection).resumes
        == s.resumes + KeepNew(Candidates(Successes(pdfs), s.nextId), Names(s.resumes))
    ensures var pdfs := PdfFiles(selection);
      (forall k :: 0 <= k < |pdfs| ==> pdfs[k].extraction.Extracted?) ==>
        HandleFileChange(s, selection).error == NoError
    ensures var pdfs := PdfFiles(selection);
      forall k :: LastFailureAt(pdfs, k) ==>
        HandleFileChange(s, selection).error == ErrorMessage(FailureMessage(pdfs[k].name))
  {
    var pdfs := PdfFiles(selection);
    var b0 := Batch([], NoError, s.nextId);
    ProcessFilesStages(b0, pdfs);
    ProcessFilesError(b0, pdfs);
    assert [] + Candidates(Successes(pdfs), s.nextId) == Candidates(Successes(pdfs), s.nextId);
  }

  /** Appending resumes with distinct ids from `[lo, hi)` to a store whose
      ids are fresh below `lo` leaves ids fresh below `hi`. */
  lemma AppendFreshIds(prev: seq<Resume>, added: seq<Resume>, lo: nat, hi: nat)
    requires FreshIds(prev, lo) && DistinctIds(added) && lo <= hi
    requires forall k :: 0 <= k < |added| ==> lo <= added[k].id < hi
    ensures FreshIds(prev + added, hi)
  {
    var r := prev + added;
    forall i, j | 0 <= i < j < |r| ensures r[i].id != r[j].id {
      if i < |prev| && j >= |prev| {
        assert r[j] == added[j - |prev|];
      } else if i >= |prev| {
        assert r[i] == added[i - |prev|] && r[j] == added[j - |prev|];
      }
    }
  }

  /** Ids stay unique: every resume the handler adds carries an id no
      resume of the store had, and `nextId` stays unused. */
  lemma HandleFileChangeFreshIds(s: AppState, selection: seq<PickedFile>)
    requires FreshIds(s.resumes, s.nextId)
    ensures FreshIds(HandleFileChange(s, selection).resumes, HandleFileChange(s, selection).nextId)
  {
    var pdfs := PdfFiles(selection);
    if pdfs != [] {
      var b0 := Batch([], NoError, s.nextId);
      ProcessFilesStages(b0, pdfs);
      var staged := ProcessFiles(b0, pdfs).staged;
      var n := ProcessFiles(b0, pdfs).nextId;
      var succeeded := Successes(pdfs);
      assert staged == Candidates(succeeded, s.nextId);
      CandidatesAt(succeeded, s.nextId);
      KeepNewDistinctIds(staged, Names(s.resumes));
      var kept := KeepNew(staged, Names(s.resumes));
      forall k | 0 <= k < |kept| ensures s.nextId <= kept[k].id < n {
        assert kept[k] in staged;
      }
      AppendFreshIds(s.resumes, kept, s.nextId, n);
    }
  }
}
