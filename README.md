# PDF gesture reader: a Dafny model of its navigation and classification rules

The PDF gesture reader stores uploaded PDF files in a table of records. Each record
has an id, a stored file name, the original name, a topic, a page count, an open
flag and a current page. A web client lists the records, filters them by name or
topic, opens one, and turns its pages with buttons or with hand gestures. For the
gestures the client sends camera frames to `/api/gestures/infer` and debounces the
labels that come back; the server's landmark rule (`infer_frame`) gives those labels,
but the server as written does not mount that route (see Left out). This project models the rules behind that, in
four parts, and proves what they promise:

- **The document endpoints** (`PdfRouter`, over the record type in `Documents`):
  - a class `PdfStore` holding the table (id to record), the listing order and the names in the storage directory;
  - one method per handler: list with search, upload, get, open, close, change page, classify and delete;
  - the clamped page arithmetic;
  - the upload name checks and the collision loop, whose counters accumulate (`informe_1_2.pdf`).
- **The Dewey topic rules** (`Dewey`):
  - the sixteen-class rule table;
  - first-match classification of the lower-cased text;
  - the code-to-label lookup;
  - text extraction from the first five pages;
  - the fallback chain of `classify_file`: external classifier, then local rules, then "Obras generales".
- **The hand-landmark rule** (`HandGestures`): one frame's first hand gives `next`, `prev` or `none`.
- **The client state** (`ClientApp`):
  - a class `App` holding the list, filter, selection, page shown, gesture switch and debouncer memory;
  - it adopts server records only from successful responses;
  - the gesture tick debounces labels into page requests.
- **Client and server together** (`Session`): opening, page changes, closing, classifying, deleting and gesture ticks, each taken through the client and the store in one step. This part proves that the page the client shows is always the server's page for the selected record.

String operations the code relies on are written out in `Strings`:

- substring search;
- lower-casing of Latin-1 text;
- Python's `str.strip` with its full whitespace set;
- `pathlib`'s `stem`;
- decimal formatting;
- `"\n".join` with its inverse `split`.

`Wrappers` holds `Option` and `Result`.

The client's gesture handling, as the code has it:

- A gesture dispatches a page change whenever its label differs from the last accepted one. There is no time-based cooldown and no guard against a request still in flight.
- The gesture memory restarts at `none` whenever the selected record changes, so also after every successful page change (see Findings).

## Model

| member | source | states |
|---|---|---|
| `Strings.Contains` | server/app/routers/pdfs.py:52 | `needle in hay`: a needle that occurs is never longer than the text |
| `Strings.ContainsIffOccurs` | server/app/routers/pdfs.py:52 | the substring test holds exactly when the needle occurs at some position of the text |
| `Strings.Lower` | server/app/services/dewey.py:58 | lower-casing keeps the length, maps each character on its own (each Latin-1 capital, A to Z and À to Þ, to its small letter) and leaves no capital |
| `Strings.IsPdfName` | server/app/routers/pdfs.py:59 | an accepted name has at least four characters, the fourth from last a dot |
| `Strings.IsPdfNameIffLowerEndsWith` | server/app/routers/pdfs.py:59 | the four-character test holds exactly when the lower-cased name ends in ".pdf" |
| `Strings.PdfNameEnding` | server/app/routers/pdfs.py:59 | an accepted name ends in a dot followed by p, d and f, each in either case |
| `Strings.ReplaceSpaces` | server/app/routers/pdfs.py:65 | each space becomes an underscore, every other character stays where it is, and no space is left |
| `Strings.ReplaceSpacesKeepsPdfName` | server/app/routers/pdfs.py:59-65 | replacing spaces by underscores keeps a name that passed the ".pdf" check passing it |
| `Strings.Strip` | server/app/services/dewey.py:85-86 | `strip()` returns a slice of the text that removes only whitespace on either side and neither starts nor ends with whitespace |
| `Strings.StripEmptyIffBlank` | server/app/services/dewey.py:87 | a field strips to "" exactly when it is all whitespace |
| `Strings.LastIndexOf` | server/app/routers/pdfs.py:70 | the last position of the character, or -1 when it does not occur |
| `Strings.Stem` | server/app/routers/pdfs.py:70 | the stem is never longer than the name |
| `Strings.StemCutsLastSuffix` | server/app/routers/pdfs.py:70 | the stem is a prefix of the name: the whole name, or the part before its last dot when that dot is neither first nor last |
| `Strings.StemCutsAtLastInteriorDot` | server/app/routers/pdfs.py:70 | when the last dot is neither first nor last, the stem is exactly the part before it |
| `Strings.StemOfPdf` | server/app/routers/pdfs.py:70 | the stem of a non-empty `x` followed by ".pdf" is `x` |
| `Strings.StemOfPdfName` | server/app/routers/pdfs.py:70 | a name ending in ".pdf" (any case) loses at most four characters to its stem, and exactly those four when something precedes them ("Informe.PDF" has stem "Informe") |
| `Strings.DecimalString` | server/app/routers/pdfs.py:70 | the counter is written as at least one decimal digit and nothing else |
| `Strings.DecimalStringValue` | server/app/routers/pdfs.py:70 | the digits written for the counter spell the counter again |
| `Strings.DecimalStringInjective` | server/app/routers/pdfs.py:70 | different counters are written differently |
| `Strings.JoinLines` | server/app/services/dewey.py:27 | the joined text starts with the first part and ends with the last |
| `Strings.SplitJoin` | server/app/services/dewey.py:27 | splitting the `"\n"`-joined pages at line breaks gives the pages back when none holds a line break |
| `Documents.NewDocument` | server/app/models.py:9-17 | a new record is closed, on page 1, with the given page count and topic, its path being its stored name |
| `Documents.ParsePageRequest` | server/app/schemas.py:31-33 | a page request without `mode` means `next`; the page is kept as sent |
| `PdfRouter.ParsedDefaultTurnsForward` | server/app/schemas.py:31-33 | a page request sent without `mode` acts as `next`: it turns one page forward before the last page and ignores any `page` it carries |
| `Documents.Normalized` | server/app/routers/pdfs.py:25-30 | an absent or empty text normalises to ""; any other text to its folded form |
| `Documents.MatchesNeedle` | server/app/routers/pdfs.py:50-52 | the empty needle matches every record |
| `Documents.Filtered` | server/app/routers/pdfs.py:48-54 | the filter is never longer than the list and keeps only records that match |
| `Documents.FilteredMembership` | server/app/routers/pdfs.py:48-54 | a record is in the filtered list exactly when it is in the list and its normalised topic or name contains the needle |
| `Documents.FilteredIsSubsequence` | server/app/routers/pdfs.py:48-54 | the filtered list keeps the order of the list it came from |
| `Documents.FilteredByEmptyNeedle` | server/app/routers/pdfs.py:44-46 | the empty needle keeps every record, so the early return of the whole list agrees with the filter |
| `Documents.FilteredSnoc` | server/app/routers/pdfs.py:49-53 | one more step of the append loop appends the record exactly when it matches |
| `Dewey.PageTexts` | server/app/services/dewey.py:22-26 | each page contributes its text, and a page without text or whose extraction raised contributes "" |
| `Dewey.PagesUsed` | server/app/services/dewey.py:19-21 | at most `max_pages` pages are read, none when `max_pages` is not positive |
| `Dewey.ExtractedText` | server/app/services/dewey.py:15-29 | a reader failure or a non-positive `max_pages` gives "" |
| `Dewey.ExtractTextFromPdf` | server/app/services/dewey.py:15-29 | the loop returns the first `max_pages` page texts joined by line breaks, or "" when the reader fails |
| `Dewey.ExtractedTextLines` | server/app/services/dewey.py:18-27 | when no page text contains a line break, the extracted text splits back into one piece per page read, in order, never more than `max_pages` |
| `Dewey.AnyPatternMatches` | server/app/services/dewey.py:60-62 | a class matches exactly when one of its patterns finds a match |
| `Dewey.FirstMatch` | server/app/services/dewey.py:59-62 | the class chosen matches and no class before it in the table does |
| `Dewey.ClassifyDeweyFromText` | server/app/services/dewey.py:55-63 | empty text gives nothing. Otherwise the result is the (code, label) of the first matching class on the lower-cased text, and nothing only when no class matches |
| `Dewey.LabelFromDeweyCode` | server/app/services/dewey.py:66-70 | nothing exactly when no class has the code; otherwise the label of a class with that code |
| `Dewey.DeweyCodesDistinct` | server/app/services/dewey.py:32-52 | no two classes of the table share a code |
| `Dewey.DeweyLabelsNonEmpty` | server/app/services/dewey.py:32-52 | every class has a non-empty label |
| `Dewey.ClassifiedCodeHasLabel` | server/app/services/dewey.py:55-70 | the code a text is classified under looks up to the label it was given |
| `Dewey.UppercaseAiPatternNeverMatches` | server/app/services/dewey.py:35-61 | the pattern for "IA" belongs to the first class, yet it never matches the lower-cased text under any engine whose matches of it contain "IA" |
| `Dewey.RemoteTopic` | server/app/services/dewey.py:81-94 | an OK answer with stripped code and name both non-empty gives "code:name". Otherwise it gives the non-empty stripped `final_pred`, otherwise nothing. A failed or refused call gives nothing |
| `Dewey.LocalTopic` | server/app/services/dewey.py:99-106 | the local decision is the label of the first class matching the first five pages' text, or "Obras generales" exactly when no class matches; never empty |
| `Dewey.ClassifyFile` | server/app/services/dewey.py:73-106 | the topic is the external classifier's when it decides one, the local decision otherwise, and never empty |
| `Dewey.ClassifyFileOutcomes` | server/app/services/dewey.py:73-106 | every topic is a remote "code:name", a remote `final_pred`, a table label or "Obras generales" |
| `Dewey.FailedRemoteFallsBack` | server/app/services/dewey.py:76-106 | without an OK answer (no client, exception, error status) the local rules decide |
| `HandGestures.IsFingerUp` | server/app/services/gestures.py:32-34 | a tip level with its joint is not up |
| `HandGestures.InferFrame` | server/app/services/gestures.py:23-44 | no hand gives none. With the first hand: next iff landmark 8 is above 6 and 12 above 10; prev iff 8 is above 6 and 12 is not above 10; none iff 8 is not above 6. Level counts as down |
| `HandGestures.OnlyFirstHandCounts` | server/app/services/gestures.py:29-30 | hands after the first never change the label |
| `HandGestures.IndexDownIsNone` | server/app/services/gestures.py:39-44 | with the index finger down the label is none, whatever the middle finger does |
| `PdfRouter.NextPage` | server/app/routers/pdfs.py:160-161 | `next` never passes the last page, moves one page before it and stays put on it |
| `PdfRouter.PrevPage` | server/app/routers/pdfs.py:162-163 | `prev` never goes before page 1, moves back one page after it and stays on it |
| `PdfRouter.ClampPage` | server/app/routers/pdfs.py:136-137 | a requested page is kept when in range, cut to the last page above it and to 1 below it |
| `PdfRouter.WithPageChanged` | server/app/routers/pdfs.py:160-165 | a page change replaces the current page and nothing else; `set` with a non-zero page lands on that page clamped into `[1, num_pages]` |
| `PdfRouter.WithOpened` | server/app/routers/pdfs.py:135-137 | opening sets `is_open`, may replace the current page and nothing else; it keeps the page when none (or 0) is requested and otherwise lands on the requested page clamped into `[1, num_pages]` |
| `PdfRouter.WithClosed` | server/app/routers/pdfs.py:148 | closing clears `is_open` and changes nothing else |
| `PdfRouter.WithTopic` | server/app/routers/pdfs.py:177 | classifying sets the topic and changes nothing else |
| `PdfRouter.PageChangeKeepsBounds` | server/app/routers/pdfs.py:160-165 | a page change keeps `1 <= current_page <= num_pages`, touches nothing but the current page and ignores `is_open` |
| `PdfRouter.OpenKeepsBounds` | server/app/routers/pdfs.py:135-137 | opening keeps the page bounds, sets `is_open`, touches nothing else, and keeps the page when none (or 0) is requested |
| `PdfRouter.PrevUndoesNext` | server/app/routers/pdfs.py:160-163 | before the last page, `prev` after `next` restores the record |
| `PdfRouter.EndsAreFixed` | server/app/routers/pdfs.py:160-163 | `next` on the last page and `prev` on page 1 change nothing |
| `PdfRouter.SetLandsOnPage` | server/app/routers/pdfs.py:136-137 | `set` or `open` with a page of the document (1 to `num_pages`) shows exactly that page |
| `PdfRouter.SetWithoutPageIsNoOp` | server/app/routers/pdfs.py:164-165 | `set` with no page or page 0 changes nothing |
| `PdfRouter.NextOnEmptyDocument` | server/app/routers/pdfs.py:160-161 | on a record without pages, `next` moves the page from 1 to 0 |
| `PdfRouter.NextCandidate` | server/app/routers/pdfs.py:70 | the name tried after a collision passes the upload check |
| `PdfRouter.CandidateAccumulates` | server/app/routers/pdfs.py:68-71 | after k collisions the name is the original stem followed by every counter "_1" to "_k" and ".pdf" |
| `PdfRouter.FirstCollisionExample` | server/app/routers/pdfs.py:68-71 | one collision on "informe.pdf" gives "informe_1.pdf" |
| `PdfRouter.CandidateExample` | server/app/routers/pdfs.py:68-71 | two collisions on "informe.pdf" give "informe_1_2.pdf" |
| `PdfRouter.NextCandidateGrows` | server/app/routers/pdfs.py:69-70 | each next candidate still ends in ".pdf" and is longer than the last, so no name is tried twice |
| `PdfRouter.CandidateIsPdfName` | server/app/routers/pdfs.py:68-71 | every candidate passes the upload check |
| `PdfRouter.ChooseDestName` | server/app/routers/pdfs.py:65-71 | the loop ends on a name not in the storage directory, after exactly the collisions it met, and keeps the name when it is free |
| `PdfRouter.ListNeedle` | server/app/routers/pdfs.py:43 | a non-empty `q` wins over `topic`; an empty or absent value counts as absent; "" when both are |
| `PdfRouter.ItemsOf` | server/app/routers/pdfs.py:37-41 | the listing has at most one record per listed id, each a record of the table |
| `PdfRouter.ItemsOfAllPresent` | server/app/routers/pdfs.py:37-41 | the listing holds, position by position, the record of each listed id |
| `PdfRouter.PdfStore.constructor` | server/app/routers/pdfs.py:62-63 | an empty table over a storage directory holding the given names, and the table invariant holds |
| `PdfRouter.PdfStore.ListPdfs` | server/app/routers/pdfs.py:33-54 | with a blank needle every record in listing order, otherwise the filter of that list |
| `PdfRouter.PdfStore.UploadPdf` | server/app/routers/pdfs.py:57-99 | a non-PDF name gives 400 and an unreadable file gives 400, both leaving table and directory as they were. Otherwise the file is stored under the first free candidate and a new closed record on page 1, with the classified topic, is added first in the listing. The table invariant is kept |
| `PdfRouter.PdfStore.GetPdf` | server/app/routers/pdfs.py:102-107 | the record, or 404 for an unknown id |
| `PdfRouter.PdfStore.OpenPdf` | server/app/routers/pdfs.py:130-140 | only the addressed record is opened (and its page clamped); 404 changes nothing |
| `PdfRouter.PdfStore.ClosePdf` | server/app/routers/pdfs.py:143-151 | only the addressed record is closed, page kept; 404 changes nothing |
| `PdfRouter.PdfStore.ChangePage` | server/app/routers/pdfs.py:154-169 | only the addressed record's page moves; 404 changes nothing; the invariant is kept |
| `PdfRouter.PdfStore.ClassifyPdf` | server/app/routers/pdfs.py:172-180 | only the addressed record's topic is replaced; 404 changes nothing |
| `PdfRouter.PdfStore.DeletePdf` | server/app/routers/pdfs.py:183-199 | the record and its id in the listing go, and the stored file goes unless its removal fails. 404 changes nothing |
| `ClientApp.GestureCommand` | client/src/App.tsx:193-194 | `next` asks for a `next` page change, `prev` for `prev`, `none` for nothing |
| `ClientApp.Debounce` | client/src/App.tsx:192-196 | a label dispatches exactly when it differs from the memory and is not none, and the memory always ends at the label |
| `ClientApp.Run` | client/src/App.tsx:192-196 | a run of labels dispatches at most one command per label, and none when every label is none |
| `ClientApp.RepeatedLabelIsSilent` | client/src/App.tsx:192 | repeating the remembered label dispatches nothing |
| `ClientApp.RunOfOneLabel` | client/src/App.tsx:192-196 | with the memory kept, a run of one label dispatches once if it is new and not none, otherwise never |
| `ClientApp.RunOnlyTurnsPages` | client/src/App.tsx:193-194 | a run dispatches only `next`/`prev`, never more than one per label |
| `ClientApp.NoneReArms` | client/src/App.tsx:195 | a `none` between two `next` labels lets the second dispatch again |
| `ClientApp.App.constructor` | client/src/App.tsx:32-39 | nothing listed or selected, page 1, gestures off |
| `ClientApp.App.FilteredItems` | client/src/App.tsx:63-71 | a blank filter shows everything. Otherwise it shows exactly the items whose normalised topic or name contains the normalised filter, in order |
| `ClientApp.App.SetFilter` | client/src/App.tsx:245 | the filter is the typed text |
| `ClientApp.App.FetchList` | client/src/App.tsx:43-52 | the list is replaced only by a successful response |
| `ClientApp.App.AdoptRecord` | client/src/App.tsx:98-99 | an OK response with a body becomes the selection (and the page). The rerun capture effect starts the memory at none. Anything else changes nothing |
| `ClientApp.App.OpenDoc` | client/src/App.tsx:90-101 | it sends an open with an empty body. On success it shows the returned record at its page; on failure nothing changes |
| `ClientApp.App.CloseDoc` | client/src/App.tsx:103-114 | nothing without a selection; the selection is cleared only on an OK response |
| `ClientApp.App.ChangePage` | client/src/App.tsx:116-125 | nothing without a selection. On success the page is the server's, never computed locally; a failure changes nothing |
| `ClientApp.App.Classify` | client/src/App.tsx:127-139 | on success the returned record is adopted, the page left alone and the list refreshed; a failure changes nothing |
| `ClientApp.App.DeleteDoc` | client/src/App.tsx:141-152 | on success the selection is cleared only if it is the deleted id, and the list is refreshed |
| `ClientApp.App.OnUpload` | client/src/App.tsx:73-88 | on success the filter is cleared, the list refreshed and the new record opened; a failure changes nothing |
| `ClientApp.App.ToggleGestures` | client/src/App.tsx:276 | the switch flips and the rerun effect starts with memory none |
| `ClientApp.App.GestureTick` | client/src/App.tsx:177-197 | a failed inference, or a label equal to the memory, changes nothing. A new label is recorded and its page change sent; adopting the response resets the memory to none |
| `ClientApp.App.GestureTickIntended` | client/src/App.tsx:190-196 | the same tick with the memory ending at the accepted label, as `Debounce` says |
| `Session.ReplyOf` | client/src/lib/utils.ts:15-30 | a handler's success arrives as an OK response with its body; an HTTP error as a response that is not OK |
| `Session.OpenStep` | client/src/App.tsx:90-101 | opening through the server keeps the client showing the server's record and page |
| `Session.ChangePageStep` | client/src/App.tsx:116-125 | the page shown after a page change is the server's arithmetic on the selected record |
| `Session.CloseStep` | client/src/App.tsx:103-114 | closing clears the selection and closes the server's record |
| `Session.ClassifyStep` | client/src/App.tsx:127-139 | the selection becomes the record with the new topic; client and server stay in step |
| `Session.DeleteStep` | client/src/App.tsx:141-152 | the record is gone and a selection of it is cleared; client and server stay in step |
| `Session.TickStep` | client/src/App.tsx:177-197 | a failed inference or a repeated label changes nothing; a new none label, or a new label without a selection, changes only the memory, which ends at the label. A new non-none label moves the selected record's page by the server's arithmetic, the page shown follows, and the memory ends at none |
| `Session.TickStepIntended` | client/src/App.tsx:190-196 | the same, with the memory ending at the label in every case where an inference arrived |
| `Session.UploadThreePages` | server/app/routers/pdfs.py:57-99 | uploading a readable three-page "informe.pdf" adds a record on page 1 of 3 |
| `Session.HeldNextAsWritten` | client/src/App.tsx:190-196 | a `next` held for three ticks on a three-page document sends three page requests and shows pages 2, 3, 3 |
| `Session.HeldNextIntended` | client/src/App.tsx:190-196 | with the memory kept, the same sends one request and shows pages 2, 2, 2 |

## Left out

- The gesture route: server/app/main.py:29-30 mounts only the `pdfs` and `ws` routers, and server/app/routers/gestures.py:6 imports a `GestureInferResponse` that server/app/schemas.py does not define. So as written every `/api/gestures/infer` call fails, and every tick returns early at client/src/App.tsx:190; `ClientApp.App.GestureTick` with no inference covers that case. The other gesture members (`HandGestures`, `Session.TickStep`, the Findings row) model the client's and the server's logic as if the route answered.
- Camera capture, canvas and JPEG encoding, the 700 ms interval timer and the asynchronous restart of the capture effect: one tick is one arriving inference outcome.
- Concurrency between requests: responses are handled in the order the requests were sent, and no interleaving of a page response with a later tick is modelled.
- `apiFetch` transport, status codes, JSON decoding and the 500-character error text: a call's outcome is a `Reply` (ok flag and body).
- The snackbar messages, the loading overlay, the button enabling (`page <= 1`, `page >= numPages`) and the rest of the markup.
- The page count reported by the PDF viewer (`numPages` state), which only drives button enabling.
- The WebSocket connection manager, image decoding, and the hand-pose model: a frame is given as the landmarks of its detected hands.
- Upload names are taken as plain file names: a name containing "/" is not modelled, where `pathlib` (server/app/routers/pdfs.py:66, 70, 90) would keep only its last component.
- The file system: the storage directory is the set of stored names, `path` equals the stored name without the directory prefix, and writing or reading file bytes, `FileResponse` and `get_pdf_file` are not part of this model.
- `PdfReader`: reading a file is given as a `PdfReading` (reader failure, or per-page extraction outcomes), and the page count is the number of pages.
- The HTTP call to the external classifier: its outcome is a `RemoteReply`; response bodies that are not objects are not modelled.
- Regular-expression matching, and the search normalisation of `_normalize_text` and of the client (NFD decomposition, mark removal, lower-casing): they are function parameters, and no agreement between the client's and the server's folding is claimed.
- `Strings.Lower`: lower-cases the Latin-1 capitals only (A to Z, À to Þ). `Dewey.ClassifyDeweyFromText` and the ".pdf" check use it. Python's `str.lower()` also maps Greek, Cyrillic and Latin Extended capitals, and 'İ' to two characters; the Dewey table's patterns need only Latin-1.
- `created_at`: the listing order is the upload order, newest first; database ids are supplied by the caller (`newId`, not already in use).
- `Dewey.ClassifyFile`: the `try` around it in `upload_pdf` (server/app/routers/pdfs.py:84-87) cannot fire in the model, since every failure inside it is caught there already, so a record's topic is never absent after upload.
- `ClientApp.App.OpenDoc`: the `?? 1` default for the page cannot apply, since the server always sends `current_page`.
- Landmark coordinates are real numbers, not floating point.

## Findings

| source | as written | input that shows it | evidently intended | confidence | as-written member | corrected member |
|---|---|---|---|---|---|---|
| client/src/App.tsx:190-214 | once `/api/gestures/infer` is served, the debouncer's memory lives inside the capture effect. A successful page change replaces `selected`, which reruns the effect and starts the memory again at `none`, so a held gesture turns a page on every tick | a `next` gesture held for three ticks on page 1 of a three-page document: pages 2, 3, 3 and three requests | one page turn per gesture: a run of equal labels dispatches at most once | medium, not executed | `Session.HeldNextAsWritten` | `ClientApp.App.GestureTickIntended` |
