# Resume keyword filter: intake and ranking, modelled in Dafny

The application lets a user upload a batch of PDF resumes and rank them
against comma-separated keywords. All of its logic is in `src/App.js`, in
two pure pieces that this project models and proves properties of.

- **Ranking** (`filteredAndScoredResumes`). The query is lower-cased,
  split on `,`, trimmed and stripped of empty pieces. With no terms left,
  every resume is listed in store order with score 0. Otherwise a resume's
  score is the number of distinct terms occurring in its lower-cased
  text. Zero scores are dropped, and the rest are sorted by score,
  highest first, with a stable sort. The display shows the raw store while
  the keyword box is empty and the ranking otherwise.
- **Intake** (`handleFileChange`). Only `application/pdf` files are
  processed, one after another. Each success stages one resume whose
  text is the page lines (items joined by a space), each followed by a
  newline. Each failure overwrites the single error message and the loop
  goes on. Afterwards the staged resumes whose names the store did not
  already hold are appended to the store, in order.

Files:

- `strings.dfy` (module `Strings`): lower-casing, JavaScript's `trim`,
  `split` and `join` on one character, and `includes`.
- `resumes.dfy` (module `Resumes`): the `Resume` and `ScoredResume`
  records and predicates over stores.
- `ordering.dfy` (module `Ordering`): the stable insertion sort by
  descending score.
- `ranking.dfy` (module `Ranking`): query normalisation, scoring, ranking
  and the display choice.
- `intake.dfy` (module `Intake`): page-text assembly, the per-file loop,
  the merge and the handler.

Two behaviours of the code are worth stating plainly:

- Names are checked only against the store as it was before the batch
  (`src/App.js:129-130`), so two same-named files in one batch are both
  appended (`Intake.SameNameInBatchBothKept`). Names stay unique only
  when the batch itself has no duplicate names
  (`Intake.MergeKeepsUniqueNames`).
- There is one error slot, not one error per file. It is cleared when a
  non-empty PDF batch starts and overwritten by each failure, so it ends
  up naming the last failing file. An empty PDF selection returns before
  the slot is cleared (`src/App.js:91`, `src/App.js:94`,
  `src/App.js:123`).

## Model

| member | source | states |
|---|---|---|
| Strings.Trim | src/App.js:139 | `trim` returns a slice of its input that starts at the first non-whitespace character, has only whitespace outside it, and is empty or neither starts nor ends with whitespace |
| Strings.TrimUnique | src/App.js:139 | any slice with only whitespace outside it and no whitespace at either end (the empty string only when the input is all whitespace) is what `trim` returns |
| Strings.TrimEmptyIff | src/App.js:139 | a piece trims to the empty string exactly when it is all whitespace |
| Strings.LowerIdempotent | src/App.js:139 | lower-casing twice equals lower-casing once and leaves no upper-case letter |
| Strings.SplitPieceSlice | src/App.js:139 | every piece of `split(',')` is a contiguous slice of the query |
| Strings.SplitNoSeparator | src/App.js:139 | no piece of `split(',')` contains a comma |
| Strings.SplitCovers | src/App.js:139 | every character of the query other than a comma lies in some piece of `split(',')` |
| Strings.JoinSplit | src/App.js:139 | joining the pieces of `split(',')` with `,` gives back the query |
| Strings.SplitJoin | src/App.js:139 | splitting a join of comma-free pieces gives back exactly those pieces |
| Ranking.SearchTerms | src/App.js:139 | the terms are exactly the non-empty trimmed pieces of the lower-cased query; each is non-empty, has no comma and no upper-case letter, and neither starts nor ends with whitespace |
| Ranking.NoSearchTermsIff | src/App.js:139-142 | a query normalises to no terms exactly when it is made only of commas and whitespace (the empty query included) |
| Ranking.MatchedTerms | src/App.js:147-152 | the `matchedKeywords` set holds exactly the query terms that occur in the text |
| Ranking.ScoreBounds | src/App.js:145-153 | a score is at most the number of distinct terms, and is positive exactly when some term occurs in the lower-cased content |
| Ranking.ScoreDependsOnTermSet | src/App.js:147-153 | queries with the same set of terms give every resume the same score, whatever the order or repetition |
| Ranking.RepeatedTermAddsNothing | src/App.js:147-153 | repeating a term in the query never raises a score |
| Ranking.PositiveKeepsClasses | src/App.js:156 | dropping zero scores keeps, for every positive score, the resumes with that score in store order |
| Ranking.RankByTerms | src/App.js:141-156 | with no terms, every resume in store order with score 0; otherwise exactly the positive-score resumes, each with its own score, non-increasing, equal scores in store order, a permutation of the positive-score entries |
| Ranking.RankNoMatch | src/App.js:156 | terms found in no resume give an empty ranking |
| Ranking.RankIsTheStableSort | src/App.js:156 | any non-increasing arrangement of the positive-score entries that keeps store order among equal scores equals the ranking |
| Ranking.Displayed | src/App.js:217-224 | the raw store is shown exactly when the keyword string is empty; otherwise the ranking is shown |
| Ranking.TermlessQueryListsAll | src/App.js:214-228 | a non-empty query of only commas and whitespace lists every resume with score 0 and never shows the no-match notice |
| Ranking.NoMatchNoticeIff | src/App.js:214-228 | the no-match notice shows exactly when the store is non-empty and the query has terms, none of which occurs in any resume's lower-cased content; an empty store never shows it |
| Ordering.SortByScore | src/App.js:156 | the sort result is non-increasing in score and is a permutation of its input |
| Ordering.SortByScoreStable | src/App.js:156 | the sort is stable: for every score, the entries with that score keep their input order |
| Ordering.SortedStableUnique | src/App.js:156 | two non-increasing arrangements that agree on the order within every score class are equal, so every stable descending sort gives the same result |
| Ordering.StableSortExample | src/App.js:156 | resumes A, B, C scoring 2, 1, 2 are ranked A, C, B |
| Intake.PdfFiles | src/App.js:90 | the selection is narrowed to exactly its `application/pdf` files |
| Intake.NonPdfFilesIgnored | src/App.js:90 | the handler behaves as if only the PDF files had been selected |
| Intake.DocumentTextIsJoin | src/App.js:105-111 | the extracted text is the page lines joined by newlines, with a final newline after the last page |
| Intake.DocumentTextLines | src/App.js:105-111 | when no text item holds a newline, splitting the text on newlines gives back the page lines and a final empty remainder |
| Intake.SuccessesMembers | src/App.js:97-126 | the files that reach `newResumes.push` are exactly the selected files whose extraction succeeded |
| Intake.CandidatesAt | src/App.js:105-121 | the k-th resume staged from the successful files has the k-th id after the counter, that file's name and the text assembled from its pages, so staged ids are distinct |
| Intake.ProcessFilesStages | src/App.js:97-126 | each success stages exactly one resume, in input order, with the file's name, its assembled text and consecutive ids; failures stage nothing |
| Intake.ProcessFilesError | src/App.js:97-126 | after the loop the error slot is unchanged if every file succeeded, and otherwise names the last file that failed |
| Intake.FailureIsIsolated | src/App.js:97-126 | inserting a failing file anywhere in a batch leaves the staged resumes and ids unchanged |
| Intake.SuccessesAndFailures | src/App.js:97-126 | every file of the batch either succeeds or fails, so successes plus failures count the batch |
| Intake.KeepNew | src/App.js:130 | the filter keeps exactly the staged resumes whose name is not among the existing names |
| Intake.KeepNewAppend | src/App.js:130 | the filter keeps staged order, since it distributes over concatenation |
| Intake.Merge | src/App.js:128-132 | the previous store is an unchanged prefix, followed by exactly the staged resumes with names new to the previous store |
| Intake.SameNameInBatchBothKept | src/App.js:128-132 | two same-named resumes with a new name in one batch are both appended, breaking name uniqueness |
| Intake.MergeKeepsUniqueNames | src/App.js:128-132 | the merge keeps names unique when the store and the batch each have unique names |
| Intake.HandleFileChange | src/App.js:89-136 | an empty PDF selection changes nothing, not even the error slot; any batch leaves the old store as a prefix and never lowers the id counter |
| Intake.HandleFileChangeOutcome | src/App.js:89-132 | the store grows by the extracted PDFs with names new to the store, in selection order; the error slot is cleared when no PDF failed and otherwise names the last failing PDF |
| Intake.HandleFileChangeFreshIds | src/App.js:121 | ids stay distinct and below the counter, so every added resume gets an id no stored resume had |

## Left out

- React components, JSX and styling (`Button`, `ResumeCard`, `ResumeViewerModal`, the page layout): presentation only. The displayed list and the no-match notice are kept, as `Ranking.Displayed` and `Ranking.ShowsNoMatchNotice` (the notice only inside the non-empty-store branch). The "Your resume list is empty" panel is the other branch and is not modelled separately.
- pdf.js loading, worker configuration and byte-level parsing (`getDocument`, `getPage`, `getTextContent`): foreign library calls. Each file arrives with its extraction outcome: the text items of its pages, or a failure.
- `FileReader` and the Promise/async plumbing: I/O and suspension. The strictly sequential loop is a fold over the files in order.
- `crypto.randomUUID`: non-deterministic. Ids come from a counter carried in the application state, and only their freshness is modelled.
- `console.error`, the `isLoading` flag, the `event.target.value` reset and `useMemo` caching: UI side effects with no bearing on the results.
- The reason a file failed (read error or parse error) is not modelled. The code discards it and shows a message built from the file name only.
- Strings.Lower: only the ASCII letters are lower-cased. Full Unicode `toLowerCase` (which can also change string length) is not modelled.
- Ranking.Rank: it has no contract of its own. It only feeds the normalised terms to `Ranking.RankByTerms`, which carries the contract.
- Purity of the ranking, "the same store and query give the same output" and "ranking leaves the store unchanged", holds by construction. Every operation is a function on immutable values, so no lemma states it.
