# Reconciliation core of Auditoria-Cuenta-Compensacion, in Dafny

The application reconciles a company's compensation-account movements
against the XML files and declarations handed to the auditor. This project
models the part of the application that is pure list and record
manipulation, and proves what that part promises:

- **Line store.** XML uploads are split into lines. A line's status can be
  toggled. A line can get a comment, lose it, or have its content edited.
- **XML operation resolver** (`handleFindXmlOperation`). It finds the first
  line, over the files in order, that carries a movement's declaration
  number or amount. It marks that line reviewed, moves the viewer to it and
  links the movement to it.
- **Search** (`xmlSearchResults`). A case-insensitive substring search over
  every line, with line numbers and pages.
- **Link graph and comment sync.**
  - Movements link to XML lines without duplicates, and link to declaration
    PDFs, which can also be unlinked.
  - An XML comment is appended to the operations of every linked movement.
  - A declaration review's comment overwrites them.
- **Merges.** The custom comment bank, the processed-declaration metadata and
  the per-file review list.
- **Snapshots.** The record the autosave writes, the defaults
  `loadProgressData` applies to missing fields, and the state after a
  discarded session.
- **Classifiers** from `utils.ts`: `isAlertComment`, `isMainRecordLine` and
  the string part of `extractXmlAttributes`.
- **History** from `useHistory.ts`: undo/redo.

## How it is organised

- `wrappers.dfy`, `seqs.dfy` and `text.dfy` hold the JavaScript building
  blocks:
  - `Array.prototype.filter` and `map`;
  - `trim` with JavaScript's whitespace set;
  - a lowercase map;
  - `includes`, with a reference definition by occurrence;
  - `split('\n')`;
  - decimal rendering of a natural number;
  - the UTF-16 `length` of a string.
- `types.dfy` holds the records of `types.ts`.
- `history.dfy` and `classifiers.dfy` model `useHistory.ts` and `utils.ts`.
  Both are pure, so they are datatypes, functions and lemmas.
- The handlers of `App.tsx` are split in two:
  - Their pure setter updates (`prev.map(...)`, `prev.filter(...)`) are
    functions in `linestore.dfy`, `linkgraph.dfy`, `merges.dfy`,
    `resolver.dfy` and `snapshot.dfy`, each with lemmas stating its properties.
  - `session.dfy` holds the component state as the class
    `Session.AuditSession`, with one method per handler.
- The class's fields:
  - `user`;
  - `saved`, the hooks the autosave writes and `loadProgressData` restores:
    audit details, file data, movements, reviews, file registry, comment
    bank and processed declarations;
  - `view`: active XML file, page, highlighted line, selected declaration
    and selected lines.
- Each method's `ensures` states the new state as a function of the old one.
- The procedural loops are methods proved against specification functions:
  - the `for ... break` scan of the resolver is `Session.FindFirst`;
  - the nested `forEach` of the search is `Search.XmlSearch` and
    `Search.SearchFile`;
  - the upload loop is `Session.BuildUploads`.
- The resolver and the search are written over an arbitrary line test.
  `Resolver.Matcher` supplies the test for a query, and `Search.HitTest` the
  test for a search term.

Values the application takes from its environment are parameters:
- fresh file ids and the random suffixes of line ids (`Date.now`, `Math.random`);
- the text of an uploaded file;
- JavaScript's renderings `Math.abs(amount).toString()`, `toFixed(2)` and
  `Number(ndc)`, and the truthiness of the amount;
- `parseFloat`;
- the storage service's `reconstructAuditFiles`;
- the user's answer to the removal confirmation.

## Model

| member | source | states |
|---|---|---|
| Seqs.FilterLength | App.tsx:311 | filtering keeps exactly as many elements as satisfy the predicate |
| Seqs.FilterAppend | App.tsx:311 | filtering a concatenation filters each part, so the kept elements keep their relative order |
| Seqs.FilterMultiset | App.tsx:311 | every copy of a passing element is kept and no copy of a failing one |
| Seqs.MapFilter | App.tsx:306-311 | dropping blank lines after numbering them and then taking contents equals taking contents and then dropping blank segments |
| Text.TrimPadded | utils.ts:35 | `trim` removes any whitespace padding on both sides |
| Text.TrimEmptyIff | App.tsx:311 | a string trims to empty exactly when it is all whitespace |
| Text.TrimLower | utils.ts:35 | trimming and lowercasing commute |
| Text.LowerIdempotent | App.tsx:623-625 | lowercasing twice is lowercasing once |
| Text.IncludesIff | App.tsx:438-447 | the left-to-right `includes` scan succeeds exactly when the pattern occurs at some position |
| Text.JoinSplit | App.tsx:306 | joining the `split('\n')` segments with newlines gives back the text |
| Text.SplitJoin | App.tsx:306 | splitting newline-free segments joined by newlines gives back the segments |
| Text.SplitPrefix | App.tsx:306 | a newline-free prefix followed by a newline is the first segment |
| Text.NatToString | App.tsx:307 | the rendering is non-empty, all digits, has no leading zero unless it is 0, and denotes the number in decimal |
| Text.NatToStringInjective | App.tsx:307 | distinct line numbers render as distinct strings |
| Text.Utf16LengthBmp | App.tsx:624 | the JavaScript length equals the number of characters exactly when none lies beyond the Basic Multilingual Plane |
| Text.Utf16LengthLower | App.tsx:624-625 | the modelled lowercase map keeps the UTF-16 length |
| History.Init | useHistory.ts:15-19 | a new history can neither undo nor redo, undo and redo leave it as it is, and its timeline is the initial state alone |
| History.SetStateEffect | useHistory.ts:24-42 | setState appends the old present to past, empties future, and makes the value, or the updater applied to the present, the new present |
| History.NoOpTransitions | useHistory.ts:44-72 | undo with empty past and redo with empty future change nothing |
| History.UndoThenRedo | useHistory.ts:44-72 | redo after a possible undo restores the history |
| History.RedoThenUndo | useHistory.ts:44-72 | undo after a possible redo restores the history |
| History.UndoRedoKeepTimeline | useHistory.ts:44-72 | undo and redo keep `past ++ [present] ++ future` and its length, and move the boundary by one |
| History.PresentInTimeline | useHistory.ts:15-22 | the present sits in the timeline right after the past |
| History.ResetEffect | useHistory.ts:74-80 | reset leaves only the new present, so neither undo nor redo is possible |
| History.UndoSetState | useHistory.ts:24-57 | undo right after setState restores the old past and present, with the new value as the only future |
| Classifiers.NoCommentNoAlert | utils.ts:33-34 | a missing or empty comment is not an alert |
| Classifiers.AlertIff | utils.ts:29-37 | a non-empty comment is an alert exactly when its trimmed, lowercased form is not a safe comment |
| Classifiers.AlertIgnoresPadding | utils.ts:35 | whitespace around a non-empty comment does not change the verdict |
| Classifiers.AlertIgnoresCase | utils.ts:35 | comments equal up to letter case get the same verdict |
| Classifiers.BlankCommentIsAlert | utils.ts:33-36 | a non-empty comment made only of whitespace is an alert |
| Classifiers.MainRecordIgnoresTrim | utils.ts:39-43 | trimming before the tag test changes nothing: the line is a record line exactly when it holds a record tag |
| Classifiers.MainRecordIgnoresCase | utils.ts:41 | the record-tag test does not depend on letter case |
| Classifiers.QuoteFrom | utils.ts:46 | the position found is the first `"` at or after the start, or the end |
| Classifiers.ValueAt | utils.ts:46 | a captured value is the text right after `key="`, non-empty, free of `"` and followed by a `"` |
| Classifiers.CaptureSpec | utils.ts:46-47 | the match fails exactly when the pattern occurs nowhere, and otherwise yields the value of the leftmost occurrence |
| Classifiers.VusdiIsNotVusd | utils.ts:46 | a `vusdi="…"` attribute is never read as `vusd` |
| Classifiers.EmptyValueDoesNotMatch | utils.ts:46-47 | `vusd=""` does not match at that position |
| Classifiers.ExtractSpec | utils.ts:45-51 | for `vusd` and for `vusdi` alike, an absent attribute reads as 0 and a present one as the parse of its leftmost value |
| Types.AuditFileCategory.With | App.tsx:322-325 | replacing one category's list leaves every other category as it was |
| Types.PageOf | App.tsx:457 | the page is 1-based and is the hundred that holds the index |
| LineStore.IngestContents | App.tsx:306-311 | the lines of an upload are exactly its non-blank segments, untrimmed and in order |
| LineStore.IngestCount | App.tsx:306-311 | an upload keeps as many lines as it has non-blank segments |
| LineStore.IngestFresh | App.tsx:306-311 | every ingested line is pending and has no comment |
| LineStore.EditKeepsShape | App.tsx:410-423 | a line edit that keeps ids keeps every file's id, name, line count and line ids |
| LineStore.ToggleSpec | App.tsx:410-423 | only lines with the given id in files with the given id flip between pending and reviewed; everything else is unchanged |
| LineStore.ToggleTwice | App.tsx:410-423 | toggling twice restores the files |
| LineStore.SetCommentSpec | App.tsx:673-677 | the lines with that id in the file get the comment and become reviewed; nothing else changes; saving again changes nothing |
| LineStore.DeleteCommentSpec | App.tsx:702-712 | the lines with that id in the file lose their comment; nothing else changes |
| LineStore.UpdateContentSpec | App.tsx:714-720 | the lines with that id in the file get the new content; nothing else changes |
| LineStore.MarkFoundSpec | App.tsx:463-472 | only the line at the index in files with that id becomes reviewed |
| LineStore.MarkFoundAlreadyReviewed | App.tsx:465-468 | when that line is already reviewed the files are unchanged |
| LineStore.MarkFoundIdempotent | App.tsx:463-472 | marking twice is marking once |
| LineStore.RemoveFileSpec | App.tsx:345-346 | removal keeps exactly the files with another id, each as often as before and in their original order |
| LineStore.FindFile | App.tsx:613 | the file found has the id; none is found only when no file has it |
| LineStore.RemovedFileDangles | App.tsx:336-358 | after removal the id is not found, which is what a remaining link to it points at |
| LinkGraph.CountXmlTargetZero | App.tsx:484-486 | no link to a line exactly when the count of links to it is zero |
| LinkGraph.CountXmlTargetAppend | App.tsx:484-486 | counting links distributes over concatenation |
| LinkGraph.AddXmlLinkSpec | App.tsx:474-490 | other movements are unchanged; the given movement changes only in its XML links: unchanged if it already links to the line, otherwise the new link is appended, so the line is linked exactly once |
| LinkGraph.AddXmlLinkIdempotent | App.tsx:484-487 | adding the same XML link twice is adding it once |
| LinkGraph.AddXmlLinkKeepsUnique | App.tsx:484-487 | movements without duplicate XML link targets keep none |
| LinkGraph.AddDeclarationLinkSpec | App.tsx:892-903 | other movements are unchanged; the given movement changes only in its declaration links, which become the old ones plus a pdf link to the file unless one with that name was there |
| LinkGraph.AddDeclarationLinkIdempotent | App.tsx:895-897 | adding the same declaration link twice is adding it once |
| LinkGraph.AddDeclarationLinkKeepsUnique | App.tsx:895-897 | movements without duplicate declaration names keep none |
| LinkGraph.RemoveDeclarationLinkSpec | App.tsx:904-906 | other movements are unchanged; the given movement changes only in its declaration links, which keep exactly the links to other file names, and a movement without them stays as it is |
| LinkGraph.AppendXmlCommentSpec | App.tsx:688-690 | an empty comment becomes `[XML]: c`; a non-empty one gets a newline and `[XML]: c` after it, so the old comment is always a prefix |
| LinkGraph.SyncXmlCommentSpec | App.tsx:680-696 | movements not linked to the line are unchanged; a linked one changes only in its operations, each of which changes only in its comment, which gets the XML comment appended |
| LinkGraph.SyncDeclarationCommentSpec | App.tsx:1089-1105 | movements not linked to the declaration are unchanged; a linked one changes only in its operations, each of which gets its comment overwritten and nothing else |
| LinkGraph.SyncPolicies | App.tsx:679-696 | repeating the review sync of lines 1088-1106 changes nothing, while each XML comment sync strictly lengthens a linked operation's comment |
| Merges.AddCustomCommentSpec | App.tsx:403-407 | the bank only grows, stays duplicate-free, contains the comment if non-empty, and adding twice is adding once |
| Merges.PredefinedCommentsDistinct | utils.ts:16-26 | the initial comment bank has no duplicates |
| Merges.FreshResults | App.tsx:283-287 | the results kept are exactly those whose id is not already present |
| Merges.MergeProcessedSpec | App.tsx:283-287 | the old metadata is a prefix; an entry is added exactly when its id is new; every result's id ends up present; merging the same results again changes nothing |
| Merges.MergeProcessedWithinBatch | App.tsx:283-287 | duplicates inside one batch are not removed: the same new entry twice is kept twice |
| Merges.FindReview | App.tsx:1077 | the index found holds the file's review; none is found only when no review is for that file |
| Merges.UpsertReviewSpec | App.tsx:1076-1084 | the first review for that file is replaced at its index, or the update is appended when there is none; other reviews are unchanged; one review per file is preserved; repeating the update changes nothing |
| Merges.FindReviewFirst | App.tsx:1077 | the review search returns the first index for the file |
| Merges.ReviewMovementsSpec | App.tsx:1087-1106 | without matching metadata the movements are unchanged; with it, they are synced with the auditor's comments |
| Search.PositionsSpec | App.tsx:627-640 | the listed lines are in file-then-line order, and a line is listed exactly when it passes the test |
| Search.LinePositionsSpec | App.tsx:628-629 | within one file the listed lines are in line order, and a line is listed exactly when it passes the test |
| Search.EntriesAppend | App.tsx:627-640 | the results for two runs of lines are the results of each, concatenated |
| Search.SearchResultsSpec | App.tsx:623-643 | a term shorter than two UTF-16 code units gives no result list; otherwise exactly the lines whose lowercased content includes the lowercased term, in visiting order |
| Search.SearchIgnoresTermCase | App.tsx:625 | terms equal after lowercasing give the same results, for the modelled lowercase map |
| Search.AstralTermSearched | App.tsx:624 | a single emoji is two code units long, so it is searched for |
| Search.SearchPagesDisplay | App.tsx:614-636 | every reported page is the one on which the line is displayed |
| Search.DisplayedLines | App.tsx:614-618 | the displayed lines are the page's slice of at most 100 lines |
| Search.LineOnItsPage | App.tsx:614-618 | the line at an index is displayed on its page at position index mod 100 |
| Search.SearchFile | App.tsx:628-639 | the inner loop computes the results for one file's listed lines |
| Search.XmlSearch | App.tsx:623-643 | the nested loops compute the search results |
| Resolver.FirstLineMatch | App.tsx:437-452 | the index found is the lowest matching one; none is found only when no line matches |
| Resolver.ResolveFrom | App.tsx:436-498 | a found line lies in a file from the start on, matches, and no earlier line of its file matches |
| Resolver.ResolveIsFirst | App.tsx:436-498 | the scan finds nothing exactly when no line matches; what it finds matches, no earlier file has a match, and no earlier line of that file matches |
| Resolver.ResolveSpec | App.tsx:426-498 | the same, for a query: the ndc and amount patterns of the lowercased content |
| Resolver.UppercaseNdcNotMatchedAsTyped | App.tsx:438-441 | only the content is lowercased, so an ndc holding an upper-case letter never matches as typed |
| Resolver.FirstLineMatchContents | App.tsx:437-452 | the line search depends only on the contents |
| Resolver.ResolveAfterFind | App.tsx:463-472 | marking the found line reviewed changes neither the files' shape nor what a second find resolves |
| Resolver.FindTwice | App.tsx:426-498 | after a find the line is reviewed, and the same find again changes neither files nor movements |
| Snapshot.SnapshotOf | App.tsx:171-185 | a downloaded snapshot has version 1 |
| Snapshot.LoadSnapshot | App.tsx:154-166 | loading a full snapshot restores the saved state, up to the rebuild of the file registry |
| Snapshot.LoadDefaults | App.tsx:154-166 | missing details, comment bank and metadata are kept; missing file data, movements and reviews become empty; the version is not read |
| Snapshot.AutosaveNamesAuditor | App.tsx:96-117 | the autosave record has version 1 and every field of the state; an empty auditor name is replaced by the user's name |
| Snapshot.DiscardedSpec | App.tsx:228-239 | a discarded session is the initial one with the user as auditor |
| Session.BuiltDataSnoc | App.tsx:300-320 | one more upload adds its record at the end |
| Session.NewFileDataSpec | App.tsx:300-320 | each XML upload keeps its id, name and text, and exactly its non-blank segments as pending lines without comment |
| Session.BuildUploads | App.tsx:296-320 | the upload loop builds the registry entries of all uploads and, for XML, their file data |
| Session.FindFirst | App.tsx:436-498 | the loop with `break` finds what the resolver specifies |
| Session.ApplyFind | App.tsx:463-490 | after a find the files keep their shape, the found line is reviewed and only the line at that index in files with that id can change status; the given movement links to the found line and no other movement changes |
| Session.FindOutcomeOf | App.tsx:426-502 | the no-files alert happens exactly when there are no files, and a navigation exactly when a line is found |
| Session.FindView | App.tsx:455-461 | on a find the viewer shows the found file, the page holding the line and the line itself; the selections are kept |
| Session.WithoutAuditFile | App.tsx:339-342 | the registry keeps exactly the files with another id |
| Session.WithoutProcessed | App.tsx:353-354 | the metadata keeps exactly the entries with another id |
| Session.RemovalKeepsOrder | App.tsx:339-354 | both removals keep every other entry as often as before and in its original order |
| Session.ToggleMember | App.tsx:723-730 | the id toggles in the selection, and no other member changes |
| Session.ToggleMemberTwice | App.tsx:723-730 | toggling twice restores the selection |
| Session.AuditSession.constructor | App.tsx:31-71 | the initial state: nothing loaded, predefined comment bank, page 1 |
| Session.AuditSession.FilesAdded | App.tsx:296-329 | the uploads are added to their category, and XML uploads to the file data |
| Session.AuditSession.RemoveFile | App.tsx:336-358 | after confirmation the file leaves its category, file data or metadata, and a selection of it is cleared |
| Session.AuditSession.SaveCustomComment | App.tsx:403-407 | the comment bank gets the comment and stays duplicate-free |
| Session.AuditSession.ToggleLineStatus | App.tsx:410-423 | the file data is toggled |
| Session.AuditSession.FindXmlOperation | App.tsx:426-502 | outcome, viewer, files and movements are those the resolver specifies |
| Session.AuditSession.SaveComment | App.tsx:669-700 | with a dialog line and an active file, the line gets the comment, linked movements are synced and the bank is updated on request; otherwise nothing changes |
| Session.AuditSession.DeleteComment | App.tsx:702-712 | with a dialog line and an active file, the line loses its comment |
| Session.AuditSession.UpdateLineContent | App.tsx:714-720 | with an active file, the line gets the new content |
| Session.AuditSession.ToggleXmlSelection | App.tsx:723-730 | the id is toggled in the selected lines |
| Session.AuditSession.AddDeclarationLink | App.tsx:892-903 | the movement is linked to the declaration |
| Session.AuditSession.RemoveDeclarationLink | App.tsx:904-906 | the movement's links to that declaration are removed |
| Session.AuditSession.UpdateReview | App.tsx:1075-1107 | the review is upserted, linked movements are synced, and one review per file is preserved |
| Session.AuditSession.MergeProcessedDeclarations | App.tsx:283-287 | the new metadata is merged |
| Session.AuditSession.LoadProgress | App.tsx:154-166 | the saved state is the loaded record, with the defaults |
| Session.AuditSession.DiscardSession | App.tsx:228-239 | with a user, the saved state becomes the discarded session; without one nothing happens |
| Session.AuditSession.Logout | App.tsx:241-251 | nobody is signed in and the saved state is the initial one |
| Session.AuditSession.AutosaveRecord | App.tsx:93-127 | a record exists exactly when a user is signed in, and loading it gives back the file data |

## Left out

- Rendering, modals, the active view, and the `setTimeout` that clears the
  highlight are not modelled; they are user interface.
- Alerts are not modelled. The find's two alerts are the `NoFiles` and
  `NotFound` outcomes.
- The removal confirmation is a parameter.
- The storage service is not modelled: saving, loading, checking and
  deleting sessions, and export preparation. Its code is not part of this
  model. `reconstructAuditFiles` is a parameter.
- The autosave timer is not modelled, nor the download with Blob, the
  FileReader with `JSON.parse`, or login. Only the records they exchange are
  modelled.
- The AI service calls are not modelled: metadata extraction and movement
  extraction. Only the merge of their results is.
- PDF text extraction, PDF merging, annotation burning, the jsPDF report
  and `formatCurrency` are not modelled; they are foreign libraries.
- `xmlSelectionSummary` is not modelled, because it sums floating-point
  amounts.
- `handleGlobalSearchNavigation`, `handleNavigateToSearchResult` and
  `handleOpenPdfFromXml` are not modelled; they only move the viewer.
  `Search.LineOnItsPage` states the page fact they rely on.
- `handleFindXmlOperation` takes a date argument that its body never
  reads, so the query has no date.
- Classifiers.ExtractXmlAttributes: the values are given as a `parse`
  function, because the floating-point result of `parseFloat` is not
  modelled.
- Resolver.FindQuery: JavaScript's number renderings are query fields rather
  than computed. These are `Math.abs(amount).toString()`,
  `toFixed(2)` and `Number(ndc)`.
- Text.Lower: it lowercases ASCII and Latin-1 letters only. Other scripts
  are left as they are, while `toLowerCase` maps them too.
- Text.Utf16LengthLower: it holds for the modelled lowercase map only.
  Lowercasings that change the UTF-16 length are outside the model. For
  example, `toLowerCase` maps U+0130 to "i" followed by U+0307, which is two
  code units.
- Search.SearchIgnoresTermCase: it holds for the modelled lowercase map
  only. With `toLowerCase`, the term "\u0130" is one code unit long and is not
  searched, while its lowercase form "i\u0307" is two long and is searched.
- Text.Trim: it works on characters; JavaScript strings are UTF-16 code
  units. The two agree for the whitespace set, which lies in the Basic
  Multilingual Plane.
- Session.AuditSession.LoadProgress: a field holding a non-array JSON value
  is treated as missing. `Array.isArray` is not modelled, since the record
  is typed.
- Session.AuditSession.RemoveFile: there is no link cleanup, because the
  source performs none. Movements keep links to a removed file, as
  `LineStore.RemovedFileDangles` states.
- Session.AuditSession.FilesAdded: the call to `processNewDeclarations` for
  declaration uploads is not modelled, because it reads PDFs and calls the
  AI service. The merge it ends with is
  `Session.AuditSession.MergeProcessedDeclarations`.
- Session.AuditSession: the state hooks are grouped into the `saved` and
  `view` records instead of one field per hook. React batches updates, so
  each handler's group of updates happens at once.
